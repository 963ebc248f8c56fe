# A verified model of libfko and the SDP control client

libfko builds and reads Single Packet Authorization (SPA) messages. A sender's fields become a
colon-separated text with base64 parts and a digest; the text is padded, encrypted, encoded,
stripped of a constant prefix, given an SDP client id in front and an HMAC at the end. A receiver
undoes each layer. Beside it runs an SDP control client that keeps a connection to a controller,
requests credentials with retries and back-off, and replaces four credential files.

This project models these three components in Dafny and proves how they behave for all inputs,
all contexts and all runs. `dafny verify dfyconfig.toml` checks the whole project.

## What is proved

**The packet pipeline.** `Pipeline.EndToEnd`: for every sender's fields, secrets, salt and digest
type for which a packet is made, the receiver recovers the fields on the wire *if and only if* the
text and the digest together have at most 286 characters, the mode is one the block functions
handle, and the fields are recoverable. `SpaRoundTrip.Recoverable` is a condition on the fields
alone; `SpaRoundTrip.RoundTrip` proves it exact in legacy and in SDP mode, and concrete inputs show
what the conditions exclude. `FkoContext.Exchange` ties the theorem to the methods that change the
contexts, whether or not the fields had been encoded before. For packets from anywhere,
`Pipeline.ReceivedExactly`: a receiver makes a result of a packet *if and only if* the packet is
signed with the shared key, opens with the shared secret to a plaintext with a random value, and
that plaintext is a text with the result's fields followed by the digest of the text
(`SpaExact.DecodeExactly`). `Pipeline.PacketLayout` says what a packet is byte by byte. In between:
the decoder's cursor stays within one byte of the end of the text, the validators accept exactly a
grammar, and the modified flags of a context are truthful after any sequence of setters, encodings,
encryptions and packets.

**The building blocks.** The table-driven cipher is AES: its tables are tied to multiplication in
GF(2^8) by repeated `xtime`, its key schedules to FIPS 197, and its decryption (the equivalent
inverse cipher) undoes its encryption for every key and block; it gives the published ciphertext of
FIPS 197. Decryption undoes encryption in five block modes, and every block of an envelope is what
its mode says it is (`CipherFuncs.SealedBlocks`). Streaming MD5 and SHA-1 equal one-shot hashing of
the padded message for every way of cutting it up, with the length in the padding proved by value.
The HMAC code equals RFC 2104. Base64 on wrapping accumulators equals RFC 4648 and round-trips.

**The control client.** A trace records what an observer sees. Every run of the loop, against any
controller, network, clock and signals, leaves a lawful trace, and lawful traces have the stated
properties: no request before the controller is ready on the same connection, one kind of request at
a time, first requests no earlier than the configured interval of their kind, retries no earlier
than the back-off interval. When a request is made is proved exactly, kind by kind. A program that
listens keeps the law *if and only if* it makes no request between a reconnection with the ready
flag still up and the next message that says the controller is ready; for every configuration there
is a run of two turns that breaks it. Credential replacement is all or nothing, up to an old backup
that cannot be removed, and what each line of a configuration file becomes is proved line by line.

## How the source is modelled

- Strings are their bytes before the terminating NUL; buffers are arrays. Machine words are bit
  vectors or numbers with explicit wrap-around. The build is little-endian with 64-bit `long`.
- `MD5Transform`, `sha1_transform` and SHA-2 are parameters (an output of the wrong length counts as
  zeros); a hash context stands for what it has absorbed, which is what `Md5.Md5Context` and `Sha1.Sha1Info` are proved to keep.
- `inet_aton`, salts, random values and times are parameters. In the control client the outcome of
  every connection, write, read and file operation, and every reading of the (never decreasing)
  clock, is a parameter of the turn in which it happens.
- `SdpMachine` says on values what each step of the control client does; the methods of
  `SdpClient.Client` work on its fields and are proved to do just that.
- Operations succeed or fail; a failure carries no error number. Memory allocation succeeds, except
  where the control client treats its failure separately.
- The SPA fields of a context are one value that the setters replace.

Where a natural claim is false of the code, the exact condition is proved:

| claim | holds exactly when |
|---|---|
| decoding undoes encoding | `SpaRoundTrip.Recoverable`; `ServiceTimeoutLost` and `SdpAuthLost` are inputs that do not come back |
| a packet that was made can be read | additionally text and digest have at most 286 characters and the mode is supported; `Pipeline.TooLong` is a packet that cannot |
| opening undoes sealing | the mode is ECB, CBC, CFB, OFB, CTR or legacy CBC; PCBC writes nothing |
| the padding scan stays inside the buffer | the envelope has more than one block (`ScanInside`); the text with its prefix does not end after 22 characters (`OneBlockExactly`) |
| a context without modified flags is encoded | no call changed the SDP id or SDP mode since (`SdpId`, `DisableSdpMode`); `StaleId` sends the old id and `SendInOtherMode` the other mode's text |
| the listen loop waits for the controller | no request falls between a reconnection with the flag up and the next ready message (`ListenTurnExact`, `ListenRunExact`); `StaleRun` is a run with one |
| a failed key replacement keeps the file | the new keys are too long, or no old backup was left that cannot be removed (`ReplaceSpaKeys`, `SaveCredentials`) |
| a successful key replacement stores the new keys | every line is written whole (`WrittenExactly`, `StoredWhole`) |

## Model

| member | source | states |
|---|---|---|
| `Gf256.XtimeBranches` | lib/rijndael.c:268-276 | the mask form of doubling in GF(2^8) is the two-branch form of the code |
| `Gf256.MulIsProduct` | lib/rijndael.c:279-283 | multiplication by log tables is, for all pairs of bytes, the shift-and-add product over xtime |
| `Gf256.AlogOfLog` | lib/rijndael.c:220-258 | the antilog table undoes the log table on every nonzero byte |
| `SubstitutionBox.SboxIsAffineInverse` | lib/rijndael.c:177-196 | the S-box is the affine transformation of the field inverse (section 5.1.1 of FIPS 197) |
| `SubstitutionBox.InverseIsInverse` | lib/rijndael.c:220-258 | the inverse read off the log tables is the multiplicative inverse under the product |
| `Fips197.InvMixMix` | lib/rijndael.c:286-304 | InvMixColumn undoes MixColumn on every column |
| `Fips197.InvMixLinear` | lib/rijndael.c:286-304 | InvMixColumn distributes over addition of round keys |
| `Fips197.InvCipherUndoesCipher` | lib/rijndael.c:432-468 | the inverse cipher of section 5.3 of FIPS 197 undoes the cipher for every schedule |
| `Fips197.EqInvCipherIsInvCipher` | lib/rijndael.c:343-348 | with unmixed inner round keys the equivalent inverse cipher (section 5.3.5) is the inverse cipher |
| `Fips197.EqInvCipherUndoesCipher` | lib/rijndael.c:438-468 | the equivalent inverse cipher undoes the cipher |
| `Rijndael.DtblIsMixedSbox` | lib/rijndael.c:41-106 | each entry of the encryption table is the first column of MixColumn on the S-box output |
| `Rijndael.ItblIsUnmixedIsbox` | lib/rijndael.c:108-175 | each entry of the decryption table is the first column of InvMixColumn on the inverse S-box output |
| `Rijndael.EncryptColumnMixes` | lib/rijndael.c:408-414 | four table look-ups and rotations are SubBytes, ShiftRows and MixColumns of one column |
| `Rijndael.DecryptColumnUnmixes` | lib/rijndael.c:447-453 | four table look-ups and rotations are the inverse steps of one column |
| `Rijndael.UnpackUnmix` | lib/rijndael.c:286-304 | the byte arithmetic of inv_mix_column is InvMixColumn on the packed word |
| `Rijndael.ExpandStep` | lib/rijndael.c:332-341 | one step of the key loop gives the next word of the FIPS 197 key expansion |
| `Rijndael.KeyAddition8To32` | lib/rijndael.c:353-366 | bytes plus round key are the state plus the round key |
| `Rijndael.KeyAddition32` | lib/rijndael.c:369-375 | words plus round key are the state plus the round key |
| `Rijndael.KeyAddition32To8` | lib/rijndael.c:378-390 | the output bytes are the state plus the round key, and nothing else is written |
| `Rijndael.DecryptUndoesEncrypt` | lib/rijndael.c:398-468 | for every key schedule and every block, decryption undoes encryption |
| `Rijndael.RijndaelContext.ExpandKey` | lib/rijndael.c:332-341 | every word of the schedule is that of the key expansion of FIPS 197 |
| `Rijndael.RijndaelContext.InvertKeys` | lib/rijndael.c:342-348 | the inverse keys are the unmixed inner keys and the unchanged outer ones |
| `Rijndael.RijndaelContext.Setup` | lib/rijndael.c:307-349 | for every key of 16 bytes or more: rounds, schedule and inverse schedule as FIPS 197 has them |
| `Rijndael.RijndaelContext.EncryptRound` | lib/rijndael.c:408-415 | the working words after a round are the mixed, shifted, substituted state |
| `Rijndael.RijndaelContext.Encrypt` | lib/rijndael.c:399-429 | the sixteen output bytes are the FIPS 197 cipher of the input block and no others change |
| `Rijndael.RijndaelContext.Decrypt` | lib/rijndael.c:438-468 | the sixteen output bytes are the equivalent inverse cipher of the input block and no others change |
| `AesVector.Vector` | lib/rijndael.c:307-429 | the key schedule and the cipher, so defined, give the published ciphertext for the 256-bit key of appendix C.3 of FIPS 197 |
| `BlockModes.IncrementIsSuccessor` | lib/rijndael.c:515-531 | the carry loop on a byte string adds one modulo a power of 256 |
| `BlockModes.CounterValue` | lib/rijndael.c:515-531 | after i blocks the counter is the initial value plus i modulo 2^128 |
| `BlockModes.IncrementInPlace` | lib/rijndael.c:522-530 | the in-place carry loop computes that increment |
| `BlockModes.DecryptionUndoesEncryption` | lib/rijndael.c:471-613 | in ECB, CBC, CFB, OFB and CTR, any number of blocks decrypts to what was encrypted (sections 6.1 to 6.5 of NIST SP 800-38A) |
| `BlockModes.ChainedBlock` | lib/rijndael.c:471-537 | every ciphertext block of every mode from the cipher, its plaintext block and the blocks before alone |
| `BlockModes.CbcEncrypt` | lib/rijndael.c:486-495 | each output block is the cipher of the input block added to the one before |
| `BlockModes.CbcDecrypt` | lib/rijndael.c:554-567 | each output block is the decrypted block added to the ciphertext block before |
| `BlockModes.CfbEncrypt` | lib/rijndael.c:496-504 | cipher feedback of the ciphertext |
| `BlockModes.CfbDecrypt` | lib/rijndael.c:568-578 | the inverse of cipher feedback |
| `BlockModes.OfbBlocks` | lib/rijndael.c:505-514 | input added to the output feedback key stream |
| `BlockModes.CtrBlocks` | lib/rijndael.c:515-531 | input added to the encrypted counters |
| `BlockModes.BlockEncrypt` | lib/rijndael.c:471-537 | the output is the mode's blocks of the input; any other mode, PCBC among them, leaves it untouched |
| `BlockModes.BlockDecrypt` | lib/rijndael.c:540-613 | the same for decryption |
| `BlockHash.FoldPadded` | lib/md5.c:126-175 | folding over the padded message is one or two transforms after the whole blocks |
| `BlockHash.CountStep` | lib/md5.c:79-84 | the two-word bit count with its carry is the message length modulo 2^64 |
| `Md5.Md5Context.Init` | lib/md5.c:60-69 | an empty message has been absorbed |
| `Md5.Md5Context.AddCount` | lib/md5.c:79-84 | the bit count after n more bytes |
| `Md5.Md5Context.Update` | lib/md5.c:75-120 | the context stands for the message with the data appended |
| `Md5.PaddedByValue` | lib/md5.c:126-170 | the padded message by value: the message, a one bit, zeros to the next 56 modulo 64, and in the last eight bytes the number of bits modulo 2^64, least significant byte first |
| `Md5.OutputWords` | lib/md5.c:60-175 | the digest holds the four words least significant byte first; the initial words are those of section 3.3 of RFC 1321 |
| `Md5.Md5Context.Final` | lib/md5.c:126-175 | the digest is the block function folded over the padded message (sections 3.1 to 3.4 of RFC 1321), and the context is cleared |
| `Md5.DigestOfChunks` | lib/digest.c:35-42 | however a message is cut into updates, the digest is the one-shot digest |
| `Sha1.Sha1Info.Init` | lib/sha1.c:183-193 | an empty message has been absorbed |
| `Sha1.Sha1Info.AddCount` | lib/sha1.c:201-209 | the bit count after n more bytes |
| `Sha1.Sha1Info.Update` | lib/sha1.c:198-232 | the context stands for the message with the data appended |
| `Sha1.PaddedByValue` | lib/sha1.c:263-283 | the same padding with the number of bits most significant byte first |
| `Sha1.OutputWords` | lib/sha1.c:183-289 | the digest holds the five words most significant byte first; the initial words are those of section 5.3.1 of FIPS 180-4 |
| `Sha1.Sha1Info.Final` | lib/sha1.c:263-289 | the digest is the block function folded over the padded message (section 5.1.1 of FIPS 180-4) |
| `Sha1.DigestOfChunks` | lib/digest.c:60-67 | however a message is cut into updates, the digest is the one-shot digest |
| `Hashes.DigestOfChunks` | lib/digest.c:35-80 | the streaming contexts compute the MD5 and SHA-1 that HMAC, key derivation and digests use, however a message is cut |
| `Hmac.PadInit` | lib/hmac.c:75-95 | both pads are 128 bytes of key or constant |
| `Hmac.BufferIsBlockKey` | lib/hmac.c:100-123 | within a block the key buffer is the block key of RFC 2104, and it is zero beyond the length that pad_init is given |
| `Hmac.HmacContext.Init` | lib/hmac.c:100-131 | the inner and outer contexts have absorbed the block key added to the two pads |
| `Hmac.Rfc2104WrittenOut` | lib/hmac.c:75-151 | the HMAC of section 2 of RFC 2104 byte by byte: 64 or 128 bytes of key, hashed first if longer, added to 0x36 inside and 0x5c outside |
| `Hmac.Compute` | lib/hmac.c:154-432 | for every algorithm, message and key of up to 128 bytes the result is the HMAC of section 2 of RFC 2104 |
| `Base64.TableIsRfc4648` | lib/base64.c:99-101 | the encoder's table is table 1 of RFC 4648 |
| `Base64.TablesInverse` | lib/base64.c:40-53 | the decoder's table undoes the encoder's |
| `Base64.DecodeEncode` | lib/base64.c:56-125 | decoding gives every byte string back, with the padding or with any of it stripped |
| `Base64.StripEncoded` | lib/base64.c:131-137 | stripping leaves exactly the unpadded characters |
| `Base64.Encode` | lib/base64.c:97-125 | despite wrapping accumulators the output is the encoding of section 4 of RFC 4648, within the callers' buffers, NUL included |
| `Base64.Decode` | lib/base64.c:56-88 | the output is the decoded bytes, and -1 exactly when a character is outside the alphabet |
| `Base64.StripEq` | lib/base64.c:131-137 | the string in the buffer is cut at its first padding character |
| `CipherFuncs.NextLink` | lib/cipher_funcs.c:180-192 | one turn of the derivation loop appends MD5(previous, password, salt) |
| `CipherFuncs.SaltAndIv` | lib/cipher_funcs.c:118-196 | key and IV are D1, D2 and D3 of the MD5 chain, on the password as the mode pads it |
| `CipherFuncs.KeyWrittenOut` | lib/cipher_funcs.c:174-196 | key and IV are MD5 of password and salt, MD5 of that with password and salt, and so once more |
| `CipherFuncs.PasswordExactly` | lib/cipher_funcs.c:129-155 | a password is changed exactly in the legacy mode below sixteen characters, where it is filled up to sixteen with zeros |
| `CipherFuncs.Init` | lib/cipher_funcs.c:201-231 | the cipher context holds the schedules of the derived key |
| `CipherFuncs.UnpadPadded` | lib/cipher_funcs.c:254-314 | padding of 1 to 16 bytes is removed exactly (section 6.3 of RFC 5652) |
| `CipherFuncs.UnpaddedExactly` | lib/cipher_funcs.c:295-314 | something is removed if and only if it is 1 to 16 bytes that each hold their number |
| `CipherFuncs.OpenUndoesSeal` | lib/cipher_funcs.c:237-324 | opening an envelope recovers a plaintext of any length if and only if the mode is supported |
| `CipherFuncs.PcbcIgnoresPlaintext` | lib/cipher_funcs.c:213-214 | in PCBC mode the envelope does not depend on the plaintext's bytes |
| `CipherFuncs.SealedLayout` | lib/cipher_funcs.c:237-270 | eight bytes of header, the salt, and as many bytes as the padded plaintext, whose padding of 1 to 16 bytes holds their number |
| `CipherFuncs.SealedBlocks` | lib/cipher_funcs.c:201-270 | for each encryption mode, every block of the body is the block that ECB, CBC, CFB, OFB or CTR (sections 6.1 to 6.5 of NIST SP 800-38A) gives under the derived key and IV, with counter i at IV + i modulo 2^128; in any other mode it is zeros |
| `CipherFuncs.PadInput` | lib/cipher_funcs.c:254-259 | the input is padded in place |
| `CipherFuncs.Encrypt` | lib/cipher_funcs.c:237-270 | the output is the sealed envelope: header, salt and encrypted padded plaintext |
| `CipherFuncs.PlaintextEnd` | lib/cipher_funcs.c:297-314 | the end of the plaintext is where the padding, if there is any, starts; without a plaintext, where it seems to start in what lies before the buffer |
| `CipherFuncs.ScanInside` | lib/cipher_funcs.c:295-311 | the scan for padding reads nothing outside the buffer, whatever the last byte is, if and only if the envelope has at least 32 bytes |
| `CipherFuncs.Decrypt` | lib/cipher_funcs.c:275-324 | the output is the opened envelope, with a NUL after it; an envelope of one block has a length of at most zero, whatever lies before the buffer |
| `SaltPrefix.SaltedEncoding` | lib/fko_funcs.c:655-668 | the encoding of every envelope starts with the ten constant characters and one of 8, 9, + and / |
| `SaltPrefix.PrefixRestored` | lib/cipher_funcs.c:330-372 | what is left without the prefix never starts with it, so the receiver restores the whole |
| `SaltPrefix.CheckBase64` | common/fko_util.c:745-760 | a text is accepted exactly when all its characters are base64 characters |
| `SaltPrefix.AddSaltedStr` | lib/cipher_funcs.c:330-372 | the prefix is added to base64 text that does not have it |
| `SpaMessage.StrChr` | lib/fko_message.c:356-370 | the first occurrence of a character |
| `SpaMessage.IsValidIpv4Addr` | common/fko_util.c:135-175 | exactly 7 to 15 digits and dots with three dots that inet_aton accepts |
| `SpaMessage.AddressExactly` | common/fko_util.c:135-175 | addresses are exactly four runs of digits joined by dots, of 7 to 15 characters, that inet_aton accepts |
| `SpaMessage.HaveAllowIp` | lib/fko_message.c:37-73 | the text before the first comma is such an address |
| `SpaMessage.ReadDigits` | lib/fko_message.c:122-134 | one to so many digits up to a comma or the end, and nothing else |
| `SpaMessage.HavePort` | lib/fko_message.c:110-141 | a port of one to five digits from 1 to 65535 |
| `SpaMessage.HaveServiceId` | lib/fko_message.c:76-107 | a service id of up to eleven digits that is not zero in 32 bits |
| `SpaMessage.ValidateProtoPortSpec` | lib/fko_message.c:408-433 | exactly tcp/port or udp/port; icmp and none never pass |
| `SpaMessage.ValidateAccessMsg` | lib/fko_message.c:341-372 | the comma-walking loop ends and accepts exactly the access messages |
| `SpaMessage.AccessGrammar` | lib/fko_message.c:341-372 | access messages are exactly the texts below 256 characters of an address and one or more ",spec" |
| `SpaMessage.ValidateServiceAccessMsg` | lib/fko_message.c:308-337 | an address and one or more service ids |
| `SpaMessage.ServiceGrammar` | lib/fko_message.c:308-337 | service messages are exactly the texts below 256 characters of an address and one or more ",id" |
| `SpaMessage.ValidateNatAccessMsg` | lib/fko_message.c:375-405 | an address and a port, where more may follow a comma but not end in one |
| `SpaMessage.NatGrammar` | lib/fko_message.c:375-405 | NAT messages are exactly the texts below 256 characters of an address, a comma, a port, and nothing or a comma and more that does not end in one |
| `SpaMessage.ValidateCmdMsg` | lib/fko_message.c:281-304 | an address, a comma and something after it, below 1400 characters |
| `SpaMessage.CommandGrammar` | lib/fko_message.c:281-304 | command messages are exactly the texts below 1400 characters of an address, a comma and a nonempty command |
| `SpaFields.ValidateUsername` | lib/fko_user.c:164-209 | a nonempty name whose first 64 characters are printable and none of the fifteen that are not allowed |
| `SpaFields.PortsExactly` | lib/fko_message.c:110-141 | the decimal text of a number is a port exactly from 1 to 65535 |
| `SpaFields.SpecsExactly` | lib/fko_message.c:408-433 | and so it is after tcp/ and after udp/ |
| `SpaFields.ServicesExactly` | lib/fko_message.c:76-107 | the decimal text of a number is a service id exactly below 10^11 and if its low 32 bits are not zero |
| `SpaFields.CheckMessage` | lib/fko_message.c:224-232 | a message is checked by the validator of its type |
| `SpaFields.TypeForTimeout` | lib/fko_client_timeout.c:60-93 | adjusting the type to the timeout is idempotent, pairs the types 3 and 5, 4 and 6, 7 and 8, makes access types timeout types exactly when there is a timeout, and keeps NAT types NAT types |
| `SpaFields.DecIsCanonical` | lib/fko_encode.c:243-251 | a number is printed in base ten without leading zeros |
| `SpaFields.BaseTen` | common/fko_util.c:439-484 | the text 65535 is read as that number |
| `SpaFields.StrTolExactly` | common/fko_util.c:439-484 | a number is read from the digits after spaces and a sign, whatever follows them |
| `SpaFields.BoundedExactly` | common/fko_util.c:439-484 | the result is exactly the int with the low 32 bits of a number that a 64-bit long can hold, if that int is within the bounds |
| `SpaFields.BoundedDec` | common/fko_util.c:439-484 | a printed number below 2^32 is read back exactly when it is below 2^31 and within the maximum |
| `SpaEncode.Append` | lib/fko_encode.c:71 | appending cuts the whole text, not the piece, to the buffer |
| `SpaEncode.AppendB64` | lib/fko_encode.c:43-76 | appends the unpadded encoding |
| `SpaEncode.EncodeSdp` | lib/fko_encode.c:144-321 | the SDP text is the list of its parts, for complete fields only |
| `SpaEncode.EncodeLegacy` | lib/fko_encode.c:326-482 | the legacy text is the list of its parts with the type adjusted to the timeout, for complete fields only |
| `SpaDecode.CountFields` | lib/fko_decode.c:49-63 | the number of separators, up to eleven |
| `SpaDecode.PositionLast` | lib/fko_decode.c:66-82 | the position after the last of them |
| `SpaDecode.DigestLengths` | lib/fko_decode.c:127-164 | a stripped digest has the length of a type exactly when it is the base64 length of that digest |
| `SpaDecode.FieldParser.Span` | lib/fko_decode.c:169 | the length of the next field, reading no further than the second NUL |
| `SpaDecode.FieldParser.Copy` | lib/fko_decode.c:175 | the copy fits the temporary buffer |
| `SpaDecode.FieldParser.Skip` | lib/fko_decode.c:216 | the cursor moves past the separator and at most one byte past the text |
| `SpaDecode.FieldParser.DecodeField` | lib/fko_decode.c:180-186 | the decoded field fits its buffer and is read as a C string |
| `SpaDecode.FieldParser.RandVal` | lib/fko_decode.c:481-498 | the parser of the random value, cursor in bounds |
| `SpaDecode.FieldParser.Username` | lib/fko_decode.c:452-478 | the parser of the username, cursor in bounds |
| `SpaDecode.FieldParser.Timestamp` | lib/fko_decode.c:429-449 | the parser of the timestamp, cursor in bounds |
| `SpaDecode.FieldParser.Version` | lib/fko_decode.c:407-426 | the parser of the version, cursor in bounds |
| `SpaDecode.FieldParser.MsgType` | lib/fko_decode.c:347-404 | the parser of the type with its limit on further fields, cursor in bounds |
| `SpaDecode.FieldParser.Message` | lib/fko_decode.c:167-218 | the parser of the message, cursor in bounds |
| `SpaDecode.FieldParser.NatAccess` | lib/fko_decode.c:221-253 | the parser of the NAT access, cursor in bounds |
| `SpaDecode.FieldParser.ServerAuth` | lib/fko_decode.c:256-315 | the parser of the server authentication, cursor in bounds |
| `SpaDecode.FieldParser.ClientTimeout` | lib/fko_decode.c:318-344 | the parser of the timeout, cursor in bounds |
| `SpaDecode.FieldParser.Run` | lib/fko_decode.c:635-646 | any text and any mode: the table of parsers is run in order and the cursor stays within one byte of the end |
| `SpaDecode.ChoppedText` | lib/fko_decode.c:608-612 | clearing the digest leaves two NULs after the text |
| `SpaDecode.DecodeSpaData` | lib/fko_decode.c:504-662 | decoding any decrypted buffer: length, characters, field count, digest and fields |
| `SpaAccepted.SdpSound` | lib/fko_decode.c:166-498 | whatever the text, every field that comes out in SDP mode was on the wire in its place and passed the checks of its kind |
| `SpaAccepted.LegacySound` | lib/fko_decode.c:166-498 | and so in legacy mode |
| `SpaAccepted.DecodeSound` | lib/fko_decode.c:504-662 | whatever the buffer, what is decoded came from a printable text, a separator and its digest |
| `SpaAccepted.DigestIsOfText` | lib/fko_decode.c:606-633 | a decoded buffer without a NUL is the text, a separator and the base64 of the digest of exactly that text |
| `SpaExact.SdpParsed` | lib/fko_decode.c:166-498 | a text with the described fields in their places is parsed to them in SDP mode |
| `SpaExact.LegacyParsed` | lib/fko_decode.c:166-498 | and so in legacy mode |
| `SpaExact.DecodeComplete` | lib/fko_decode.c:504-662 | every buffer of the described form is decoded, to the fields described |
| `SpaExact.DecodeExactly` | lib/fko_decode.c:504-662 | a buffer is decoded to a result if and only if it is a text with that result's fields, a separator and the digest of the text |
| `SpaRoundTrip.NotCut` | lib/fko_encode.c:225-284 | no text of a sender is ever cut to the buffer |
| `SpaRoundTrip.PlaintextLength` | lib/fko_encryption.c:79-96 | a text with its digest always has a valid length |
| `SpaRoundTrip.SdpTextWrittenOut` | lib/fko_encode.c:144-321 | the SDP text: random value, time modulo 2^32, type, message, and NAT access and server authentication if there are any, in that order |
| `SpaRoundTrip.LegacyTextWrittenOut` | lib/fko_encode.c:326-482 | the legacy text: random value, user, time, version, type, message, what else there is, and a timeout at the end |
| `SpaRoundTrip.LegacyParse` | lib/fko_decode.c:166-344 | the nine parsers recover the fields if and only if they are recoverable |
| `SpaRoundTrip.SdpParse` | lib/fko_decode.c:166-344 | the six parsers recover the fields if and only if they are recoverable |
| `SpaRoundTrip.TailNecessary` | lib/fko_decode.c:221-344 | whatever the text, a NAT message is set exactly for NAT types, and a timeout only for timeout types |
| `SpaRoundTrip.RoundTrip` | lib/fko_decode.c:504-662 | decoding the encoder's text and digest gives the fields and the digest back if and only if the fields are recoverable |
| `SpaRoundTrip.ServiceTimeoutLost` | lib/fko_decode.c:299-312 | a service message that comes back without a timeout and not with one |
| `SpaRoundTrip.SdpAuthLost` | lib/fko_decode.c:268-298 | a timeout access message that comes back without server authentication and not with it |
| `Pipeline.HmacUndone` | lib/fko_hmac.c:38-165 | the receiver splits off and accepts the HMAC the sender appended |
| `Pipeline.CheckHmacExactly` | lib/fko_hmac.c:38-165 | for every packet and body: the check passes and leaves the body if and only if the packet is the body followed by the base64 of its RFC 2104 HMAC, and the lengths are in range |
| `Pipeline.UnwrapUndoesWrap` | lib/fko_funcs.c:574-777 | id and HMAC come off as they went on |
| `Pipeline.DecryptCipherText` | lib/fko_encryption.c:167-285 | decrypting a sender's message is decoding its plaintext if it is short enough and the mode supported, and fails otherwise |
| `Pipeline.OneBlockExactly` | lib/fko_encryption.c:195-222 | an envelope of one block comes exactly of a text that, with the prefix, ends after 22 characters, and there is no empty one |
| `Pipeline.CipherTextLength` | lib/fko_encryption.c:48-162 | the limits of 400 and 1500 characters on ciphertexts are limits of 287 and 1103 characters on plaintexts |
| `Pipeline.EncryptExactly` | lib/fko_encryption.c:48-162 | a text is encrypted if and only if it has a valid length, at most 1102 characters with its digest, and the key at most 32 bytes |
| `Pipeline.PacketExactly` | lib/fko_funcs.c:635-777 | a packet is made of fields if and only if there is a message, a NAT type has its NAT access, legacy mode a valid user and a version, the text is neither too short nor too long, the id is not zero and the keys fit |
| `Pipeline.PacketLayout` | lib/fko_funcs.c:635-777 | a packet byte by byte: id, base64 of the envelope of text, separator and digest without its first ten characters, and base64 of the HMAC of all that |
| `Pipeline.IdBytes` | lib/fko_encode.c:200-232 | the id is the base64 of its four bytes, least significant first |
| `Pipeline.EndToEnd` | lib/fko_funcs.c:170-777 | the receiver recovers fields and digest if and only if text and digest have at most 286 characters, the mode is supported and the fields are recoverable |
| `Pipeline.ReceivedSound` | lib/fko_funcs.c:170-307 | whatever the packet: what a receiver makes of it was signed with the shared key if there is one, opens to a plaintext with a random value, and was decoded from a text with the right digest |
| `Pipeline.ReceivedComplete` | lib/fko_funcs.c:170-307 | and a packet that carries such a message gives what its plaintext decodes to |
| `Pipeline.ReceivedExactly` | lib/fko_funcs.c:170-307 | a receiver makes a result of a packet if and only if the packet is genuine for that result |
| `Pipeline.TooLong` | lib/fko_encryption.c:646-709 | an access message for thirty ports is recoverable and a packet is made of it, with 400 characters or more, which the receiver refuses |
| `FkoContext.Context.constructor` | lib/fko_funcs.c:41-163 | a new context is marked as modified |
| `FkoContext.Context.RandValue` | lib/fko_rand_value.c:70-97 | sixteen characters, and marks the data as modified |
| `FkoContext.Context.Username` | lib/fko_user.c:41-134 | the name given or else the first the environment knows, cut to 63 characters, if it is valid, and marks the data as modified |
| `FkoContext.Context.Timestamp` | lib/fko_timestamp.c:38-65 | a time that is not negative, and marks the data as modified |
| `FkoContext.Context.MessageType` | lib/fko_message.c:146-169 | one of the nine types, and marks the type as modified |
| `FkoContext.Context.Message` | lib/fko_message.c:202-249 | a message valid for the current type, and marks the data as modified |
| `FkoContext.Context.NatAccess` | lib/fko_nat_access.c:37-101 | a valid NAT message, forces a NAT type, and marks the data as modified |
| `FkoContext.Context.ServerAuth` | lib/fko_server_auth.c:37-86 | a text of 1 to 63 characters, and marks the data as modified |
| `FkoContext.Context.ClientTimeout` | lib/fko_client_timeout.c:37-99 | the type follows the timeout, and the data is marked as modified |
| `FkoContext.Context.DigestType` | lib/fko_digest.c:40-69 | marks the digest type as modified |
| `FkoContext.Context.EncryptionType` | lib/fko_encryption.c:500-523 | marks the encryption type as modified |
| `FkoContext.Context.EncryptionMode` | lib/fko_encryption.c:543-566 | sets a flag outside the mask |
| `FkoContext.Context.HmacType` | lib/fko_hmac.c:188-213 | sets a flag outside the mask |
| `FkoContext.Context.Apply` | lib/fko_state.h:73-86 | every setter changes the fields as its argument is accepted or not, and keeps the flags truthful |
| `FkoContext.Context.Run` | lib/fko_state.h:73-86 | so does every sequence of setters, encodings, encryptions and packets |
| `FkoContext.Context.SdpId` | lib/fko_funcs.c:538-548 | the flags stay truthful if and only if the data is marked, the mode is legacy or the id is the same |
| `FkoContext.Context.DisableSdpMode` | lib/fko_funcs.c:508-518 | the flags stay truthful if and only if the data is marked or the mode is the same |
| `FkoContext.Context.EncodeSdpData` | lib/fko_encode.c:144-321 | succeeds exactly for encodable fields and clears the flags, which are then truthful, or keeps them |
| `FkoContext.Context.EncodeLegacyData` | lib/fko_encode.c:326-482 | the same, with the type adjusted to the timeout |
| `FkoContext.RijndaelEncrypt` | lib/fko_encryption.c:48-162 | the encoded envelope of text, separator and digest |
| `FkoContext.Context.EncryptSpaData` | lib/fko_encryption.c:589-641 | encodes again exactly when a flag is set, encrypts what is encoded, and succeeds exactly when that can be encoded and encrypted; truthful flags stay truthful |
| `FkoContext.HmacOf` | lib/fko_hmac.c:233-329 | the unpadded encoding of the RFC 2104 HMAC |
| `FkoContext.Context.Assemble` | lib/fko_funcs.c:660-772 | prefix off, id in front, HMAC at the end |
| `FkoContext.Context.SpaDataFinal` | lib/fko_funcs.c:635-777 | the packet is that of the current fields when a flag is set and otherwise that of what was encoded, and is made exactly when one can be |
| `FkoContext.VerifyHmac` | lib/fko_hmac.c:38-165 | for every packet: the message without its HMAC if and only if the packet ends in the base64 of the RFC 2104 HMAC of what is before it |
| `FkoContext.CheckDecrypted` | lib/fko_encryption.c:274-280 | sixteen digits and a separator |
| `FkoContext.OpenAndDecode` | lib/fko_encryption.c:216-284 | opens the envelope and decodes what looks decrypted; an envelope of one block is refused, whatever lies before the buffer |
| `FkoContext.DecryptSpaData` | lib/fko_encryption.c:646-709 | messages of 36 to 399 characters are decrypted, others refused |
| `FkoContext.NewWithData` | lib/fko_funcs.c:170-307 | for every packet: a result if and only if the packet is genuine for it, signed with the shared key, opened with the shared secret and with the digest of the text |
| `FkoContext.Exchange` | lib/fko_funcs.c:170-777 | from any truthful context, encoded before or not, the methods of sender and receiver together recover the fields exactly under the end-to-end conditions |
| `FkoContext.EncodedContext` | lib/fko_encode.c:144-321 | a context with clear flags: one access message, encoded in SDP mode |
| `FkoContext.SendWithNewId` | lib/fko_funcs.c:538-777 | with clear flags, a packet made after the id is set to another one starts with the old id and not with the new one |
| `FkoContext.SendInOtherMode` | lib/fko_funcs.c:508-777 | with clear flags, a packet made after the mode is switched carries the text of the other mode, which is a different one |
| `FkoContext.StaleId` | lib/fko_funcs.c:538-777 | a run from a new context to such a packet |
| `SdpCom.BackoffStep` | lib/sdp_com.c:637-641 | doubling under the ceiling is min(7200, base * 2^(k+1)) |
| `SdpCom.ConnectingExactly` | lib/sdp_com.c:574-653 | which attempt is the last: every one before it sent its SPA packet, failed to connect and left the counter below the maximum; a packet that is not sent ends the call whatever the connection would have done |
| `SdpCom.Com.Connect` | lib/sdp_com.c:574-653 | stops at the first connection, failed SPA packet or full counter, and says which; ends within max(1, max - prior) attempts (max + 1 when the counter wraps), waits min(7200, initial * 2^i) after the i-th, resets the counter on success only |
| `SdpTrace.ReadyBeforeRequest` | lib/sdp_ctrl_client.c:1518-1558 | in a lawful trace every request follows a ready message on the same connection |
| `SdpTrace.KindsDoNotMix` | lib/sdp_ctrl_client.c:699-944 | between requests of two kinds the first is answered or the client restarted |
| `SdpTrace.RetrySpacing` | lib/sdp_ctrl_client.c:1592-1613 | a retry comes no earlier than the back-off interval after the last sending |
| `SdpTrace.FirstSpacing` | lib/sdp_ctrl_client.c:1567-1863 | in a lawful trace a first request of a kind comes no earlier than that kind's configured interval after there was last something new of that kind |
| `SdpTrace.IntervalAfter` | lib/sdp_ctrl_client.c:1868-1874 | the interval doubles with a retry, returns to the configured one with a response and to ten with a restart |
| `SdpTrace.StaleMeans` | lib/sdp_ctrl_client.c:249-278 | the ready flag is left over exactly since a connection that began with it up, with no ready message and no end of the connection in between |
| `SdpTrace.LawfulExactly` | lib/sdp_ctrl_client.c:249-290 | a trace of a client that waits for its flag breaks the law if and only if a request was made on a left-over flag |
| `SdpMachine.FirstStep` | lib/sdp_ctrl_client.c:1654-1660 | a first request keeps the invariants, and the law exactly when it is not sent or the controller is ready |
| `SdpMachine.AgainStep` | lib/sdp_ctrl_client.c:1679-1688 | a retry keeps the invariants, its interval and attempts among them, and the law exactly when the controller is ready |
| `SdpMachine.ConsideredStep` | lib/sdp_ctrl_client.c:1567-1863 | first request, retry, giving up or nothing: attempts never exceed the maximum, and the law is broken exactly by a request to a controller that is not ready |
| `SdpMachine.FirstExactly` | lib/sdp_ctrl_client.c:1567-1863 | with nothing outstanding, a request is made if and only if the interval of its own kind has passed since the last time of its own kind: credential update, service refresh, access refresh or contact |
| `SdpMachine.AgainExactly` | lib/sdp_ctrl_client.c:1592-1613 | an outstanding request is repeated if and only if the retry interval has passed, doubling it up to 7200, until the maximum of attempts ends the connection |
| `SdpMachine.IdleExactly` | lib/sdp_ctrl_client.c:1567-1863 | without a connection or with another kind outstanding nothing changes |
| `SdpMachine.ActedStep` | lib/sdp_ctrl_client.c:622-687 | a message keeps the invariants and the law, and makes the flag and the controller ready exactly if it says so |
| `SdpMachine.InboxStep` | lib/sdp_ctrl_client.c:591-696 | so do the messages of an inbox: exactly if one that is acted on says so |
| `SdpMachine.InboxMeaning` | lib/sdp_ctrl_client.c:591-696 | the trace grows by what the messages heard mean, each at its time, at most a queue length of them, and data ends the reading |
| `SdpMachine.ConnectedStep` | lib/sdp_ctrl_client.c:1520-1532 | a new connection is not ready; if the flag is taken down, or was down, it stays truthful |
| `SdpMachine.SignalledStep` | lib/sdp_ctrl_client.c:1191-1231 | signals and restarts keep the invariants and the law |
| `SdpMachine.LoopTurnFine` | lib/sdp_ctrl_client.c:1518-1558 | one turn of the run loop, whatever happens in it, keeps invariants, truthful flag and law |
| `SdpMachine.QuietLoopTurn` | lib/sdp_ctrl_client.c:1518-1558 | a turn of the run loop without messages or signals: credentials are requested if they are due, else a keep-alive if that is due, else nothing; without remaining connected it ends once credentials have come |
| `SdpMachine.SignalledLoopTurn` | lib/sdp_ctrl_client.c:1535-1558 | in such a turn a signal to exit ends the loop and a restart starts over with a valid configuration |
| `SdpMachine.LoopRunFine` | lib/sdp_ctrl_client.c:1509-1564 | so does every run of the loop, which ends disconnected |
| `SdpMachine.ListenTurnExact` | lib/sdp_ctrl_client.c:247-297 | a turn of the listen loop breaks the law if and only if it makes a request though the controller has not said it is ready, on the connection as it was or in the messages just read |
| `SdpMachine.QuietListenTurn` | lib/sdp_ctrl_client.c:247-297 | a turn of the listen loop without messages: the first of credentials, access data and keep-alive that is due is requested, and nothing else |
| `SdpMachine.ListenRunExact` | lib/sdp_ctrl_client.c:238-297 | over every run of a program that listens, the law is kept if and only if no request was made on a left-over flag |
| `SdpMachine.StaleRun` | lib/sdp_ctrl_client.c:249-278 | for every configuration, two turns of the listen loop that break the law |
| `SdpClient.Client.constructor` | lib/sdp_ctrl_client_config.c:147-154 | a client starts ready, disconnected, with a retry interval of ten, and keeps the invariants |
| `SdpClient.Client.Request` | lib/sdp_ctrl_client.c:754-799 | nothing is sent without a connection or while another kind is outstanding |
| `SdpClient.Client.Consider` | lib/sdp_ctrl_client.c:1567-1863 | on the fields, the consideration of which `FirstExactly`, `AgainExactly`, `IdleExactly` and `ConsideredStep` are proved |
| `SdpClient.Client.ProcessCredUpdate` | lib/sdp_ctrl_client.c:899-944 | stored credentials clear a credential request and no other, and are acknowledged |
| `SdpClient.Client.SendDataAck` | lib/sdp_ctrl_client.c:947-999 | an acknowledgement, connected or not, clears a request of its own kind and no other |
| `SdpClient.Client.Act` | lib/sdp_ctrl_client.c:622-687 | on the fields, the action of which `ActedStep` is proved |
| `SdpClient.Client.CheckInbox` | lib/sdp_ctrl_client.c:591-696 | the loop over messages does on the fields what `InboxStep` and `InboxMeaning` are about |
| `SdpClient.Client.RestartMyself` | lib/sdp_ctrl_client.c:2010-2058 | a restart leaves a disconnected client that is not ready, with the fields of a new one |
| `SdpClient.Client.HandleSignals` | lib/sdp_ctrl_client.c:1191-1231 | on the fields, the handling of which `SignalledStep` is proved |
| `SdpClient.Client.ConnectAnew` | lib/sdp_ctrl_client.c:1520-1532 | on the fields, the connection of which `ConnectedStep` is proved |
| `SdpClient.Client.LoopTurn` | lib/sdp_ctrl_client.c:1518-1558 | on the fields, the turn of which `LoopTurnFine` is proved |
| `SdpClient.Client.Loop` | lib/sdp_ctrl_client.c:1509-1564 | any number of turns against any environment: the trace is lawful, the flag truthful, the client disconnected at the end |
| `SdpClient.Client.ListenTurn` | lib/sdp_ctrl_client.c:247-297 | on the fields, the turn of which `ListenTurnExact` is proved, from any state |
| `SdpClient.Client.Listen` | lib/sdp_ctrl_client.c:238-297 | any number of turns, acknowledgements and disconnections: the trace is lawful if and only if no request was made on a left-over flag |
| `SdpFiles.Occurrence` | lib/sdp_util.c:412-440 | the first occurrence of a key in a line |
| `SdpFiles.Untouched` | lib/sdp_util.c:403-491 | a file without either old key would be copied unchanged, which counts as a failure |
| `SdpFiles.LinesExactly` | lib/sdp_util.c:403-411 | the lines of a file make up the file; each but the last ends at its first newline or is as long as the buffer takes |
| `SdpFiles.RewrittenLines` | lib/sdp_util.c:403-471 | the rewritten file, line by line: from the first occurrence of the first old key on, the new one and a newline; else so for the second; else the line as it was |
| `SdpFiles.ReplacedExactly` | lib/sdp_util.c:403-491 | the keys can be replaced if and only if every new key has room in its line, the first old key is in some line and the second in some line without the first |
| `SdpFiles.WrittenExactly` | lib/sdp_util.c:403-471 | the copy is the rewritten file if and only if every line was written whole |
| `SdpFiles.NothingReverts` | lib/sdp_ctrl_client.c:1885-1963 | where no unremovable backup of a configuration file is in the way, a failure leaves all files as they were |
| `SdpFiles.ConfigReverts` | lib/sdp_util.c:376-507 | where one is, the failure puts that backup in the place of the configuration file |
| `SdpFiles.StoredWhole` | lib/sdp_ctrl_client.c:1885-1963 | after success both files hold the new keys if and only if every line of both was written whole |
| `SdpFiles.StoredLines` | lib/sdp_ctrl_client.c:1885-1963 | in both files every line with the old encryption key has the new encryption key instead, every other line with the old HMAC key the new HMAC key, and the rest is as it was; without old and new keys and a second file neither changes |
| `SdpFiles.FileSystem.MoveToBackup` | lib/sdp_util.c:156-200 | the file becomes the backup, or nothing but an old backup goes |
| `SdpFiles.FileSystem.Restore` | lib/sdp_util.c:277-323 | the backup becomes the file |
| `SdpFiles.FileSystem.SaveToFile` | lib/sdp_util.c:203-275 | new contents with a backup of the old exactly when file and backup allow it and everything is written, else the old contents |
| `SdpFiles.FileSystem.CopyLines` | lib/sdp_util.c:403-491 | succeeds exactly when every key fits and both are found; the file then holds the rewritten lines as far as each was written |
| `SdpFiles.FileSystem.ReplaceSpaKeys` | lib/sdp_util.c:326-507 | succeeds exactly when the keys fit, the file can be put aside, both files open and both keys are found; after a failure the file is as before, unless the keys fit and an old backup cannot be removed, in which case that backup takes its place |
| `SdpFiles.FileSystem.SaveFirst` | lib/sdp_ctrl_client.c:1885-1905 | certificate and key with backups of both, or every file as it was |
| `SdpFiles.FileSystem.SaveSpaKeys` | lib/sdp_ctrl_client.c:1907-1958 | both configuration files or none, with the certificate and key put back and each configuration file kept or reverted |
| `SdpFiles.FileSystem.SaveCredentials` | lib/sdp_ctrl_client.c:1885-1963 | succeeds exactly when every step can; after success all files hold the new contents, of which `StoredLines` says line by line what they are; after a failure at any point they hold what they held, except a configuration file whose old backup cannot be removed, which holds that |

## Left out

- GPG encryption and decryption: wrappers around libgpgme; a message of the GPG class is refused.
- Which error number an operation returns: only success and failure are distinguished.
- The rounds inside `MD5Transform` and `sha1_transform`, and SHA-2: parameters of the model.
- CipherFuncs.Decrypt: for an envelope of one block what lies before the output buffer is a parameter, and the NUL that the code writes there is not modelled.
- FkoContext.NewWithData: the receiving context is modelled by the fields and digest it ends up with.
- FkoContext.Context.SpaDataFinal: `encrypted_msg_len` is not kept as a field of its own; the length of a text is that of its bytes.
- FkoContext.Context.Username: a name from the environment that is too long is cut in the environment too; that is not modelled.
- FkoContext.SendInOtherMode: switching to SDP mode when no id was ever encoded, after which the code copies from a string that does not exist.
- CipherFuncs.Encrypt: the part of the output buffer after the header is a buffer of its own.
- Hmac.HmacContext.Init: the five families of functions are one class with the algorithm as a parameter.
- Hmac.Compute: for a key longer than 128 bytes the result is RFC 2104 on its first 128 bytes, as in the code; the callers refuse such keys.
- SdpClient.Client.Consider: the four functions that differ only in the kind of request are one method.
- SdpClient.Client.ProcessCredUpdate: whether the credentials could be stored is a parameter; the storing itself is `SdpFiles.FileSystem.SaveCredentials`.
- SdpClient.Client.RestartMyself: after a restart whose configuration cannot be read the fields keep their values instead of becoming zero; the loop ends with it.
- SdpClient.Client.Listen: connections that a listening program makes itself, which are like those of the loop.
- SdpFiles.FileSystem.SaveToFile: renaming and removing files succeed, errors that only show when a file is closed are not modelled, and paths are short enough for the postfix.
- SdpFiles.FileSystem.CopyLines: the configuration files contain no NUL.
- JSON parsing and building, sockets, TLS, daemonising and signal installation: messages and outcomes are values.
- Getters, error strings, context dumps, logging, and the command line and rc file handling of the client program: they would only add easy members.
- The remaining setters of the SDP id text and raw data (`fko_set_encoded_data`, `fko_set_spa_data`, raw digests): they would only add easy members.
