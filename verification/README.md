# Dafny model of the TLS 1.2 record layer, authd's rule engine, and their helpers

This project models the parts of the repository that carry its arithmetic and its
decisions, and proves what they promise.

- **AES-GCM** (`GcmField`, `Ghash`, `Gcm`): the byte-wise multiplier is
  multiplication in GF(2)[x] modulo x^128 + x^7 + x^2 + x + 1 in GCM bit order
  (section 6.3 of NIST SP 800-38D); GHASH is the polynomial in H of section 6.4;
  counter mode works in place; `Open` succeeds exactly on what `Seal` produces.
  The block cipher is any function from blocks to blocks, wrapped in an object that
  also records which blocks it was given.
- **TLS records** (`TlsRecords`, `GcmRecords`, `CbcRecords`, `Prf`): the linked write queue, the
  sequence numbers and the readers, so that whole runs of records are delivered
  unchanged and, for GCM, no block-cipher input is used twice (section 3 of RFC 5288,
  sections 5, 6.2.3.2 and 6.2.3.3 of RFC 5246). HMAC and the CBC or stream cipher are
  functions; decryption undoes encryption and hands on the same state.
- **SHA-1** (`Sha1`, `Sha1Vector`): the incremental object, however the bytes are split, computes the
  fold of the compression function over the padded message (FIPS 180-1).
- **CRC-64** (`Crc64`): the literal table, the bit-serial register and the remainder of
  polynomial division are the same thing; bursts of up to 8 octets are detected.
- **authd** (`RuleEngine`, `Mechanisms`, `RuleLookup`, `RuleImport`): policy evaluation
  with k-of-n delegation and credentials written on the way, the mechanism loop under
  every interrupt schedule, the dotted-prefix lookup, and the multi-pass import.
- **Certificates** (`Der`, `SanScan`, `RsaKey`, `ChainCheck`): the flat scan of a
  subjectAltName against a DER encoder, the RSA key reader, and the order-independent
  chain check.

`Gf2Poly` holds the ring GF(2)[x] with polynomials written as natural numbers (bit i is
the coefficient of x^i); the GCM field and CRC-64 both rest on it. `Bytes` holds octets
and big-endian integers.

Each module follows one source file or component. Code that updates state in place is a
class or a method on arrays, with offsets where the source passes pointers into one
buffer; its postconditions name a specification function, and the theorems are about
those functions.

## Where the code differs from what is said about it

- A rule with k larger than its number of delegates succeeds when all of them do, and a
  negative k takes the status of the last delegate (`RuleEngine.CombineCounts`).
- With a rule of an unknown class in the tree, one more credential can turn success into
  an internal error (`RuleEngine.InvalidClassNotMonotone`), and into nothing else
  (`RuleEngine.MoreCredentialsAnyTree`); without one it never does.
- Updating a stored rule can close a delegation cycle although every delegate is stored
  (`RuleImport.UpdateCanCycle`); `RuleImport.AcyclicExactly` says exactly when.
- authdb_import_plist reports success by looking at the rights alone. When new names are
  imported and the database refuses no commit, a rule of delegation depth 3 or more can
  be lost while it returns true, and only such a rule can
  (`RuleImport.SuccessMeansStored`, `RuleImport.DepthThreeLost`). A rule that the
  database refuses is lost in the same way at any depth.
- The mechanism loop asks every earlier mechanism for the state of its agent, which a
  builtin one does not have; `Mechanisms.FaultsExactly` says for which lists this can
  happen. The model stops there.
- The length checks of the CBC reader do not bound the padding for arbitrary payloads
  (`CbcRecords.OverreachingPayloads`); `CbcRecords.InBoundsExactly` says which payloads
  make the content length negative. The model answers `OutOfBounds` for them.
- The SAN scan looks into otherName (`SanScan.OtherNameSearched`).
- The chain check calls itself order-independent. It is so in the certificates after the
  first. The first one alone is kept out of libcrypto's store and is the one libcrypto is
  asked about before the check, so with another one first there are libcryptos that let
  both orders enter the check and accept only one (`ChainCheck.Reordered`).
- "The chain top must be issued by a trusted anchor": a top that comes first has failed
  in libcrypto, so an anchor's key must verify it. One that comes later is in the store
  itself, and libcrypto's word is enough (`ChainCheck.VouchedExactly`).
- Certificates that sign each other in a circle are accepted beside an unrelated anchored
  one (`ChainCheck.CrossSigningAccepted`); `ChainCheck.LeadsExactly` says exactly when
  every certificate leads to the top.

## Model

| member | source | states |
|---|---|---|
| `GcmField.XorBlock` | src/sslGcm.c:29-31 | sixteen octets become the exclusive or, also in place; the rest of the buffer stays |
| `GcmField.MulByX` | src/sslGcm.c:54-61 | the right shift with conditional 0xe1 is multiplication by x |
| `GcmField.TimesXPoly` | src/sslGcm.c:54-61 | that step equals 2p reduced modulo x^128+x^7+x^2+x+1 |
| `GcmField.ModulusTerms` | src/sslGcm.c:54-61 | the modulus has the terms x^128, x^7, x^2, x and 1 |
| `GcmField.GfMult` | src/sslGcm.c:40-64 | the output is the field product of the inputs as they were, whichever arrays alias |
| `GcmField.FieldMulMeaning` | src/sslGcm.c:40-64 | z is the product exactly when the polynomial product and z differ by a multiple of the modulus |
| `GcmField.FieldMulComm` | src/sslGcm.c:40-64 | the product is commutative |
| `GcmField.FieldMulAssoc` | src/sslGcm.c:40-64 | the product is associative |
| `GcmField.FieldMulXor` | src/sslGcm.c:40-64 | the product distributes over exclusive or |
| `GcmField.FieldMulOne` | src/sslGcm.c:40-64 | 0x80 00...00 is the identity |
| `GcmField.FieldMulZero` | src/sslGcm.c:40-64 | the zero block gives zero |
| `GcmField.PolyUnpoly` | src/sslGcm.c:40-64 | octets to polynomial and back in GCM bit order |
| `GcmField.UnpolyPoly` | src/sslGcm.c:40-64 | polynomial to octets and back, for every polynomial that fits |
| `Gf2Poly.DivisionIdentity` | src/sslGcm.c:40-64 | quotient times modulus plus remainder is the dividend |
| `Gf2Poly.RemainderUnique` | src/sslGcm.c:40-64 | the remainder is the only one below the degree |
| `Ghash.AbsorbBlock` | src/sslGcm.c:72-73 | one block: exclusive or, then multiply by H in place |
| `Ghash.GhashUpdate` | src/sslGcm.c:68-83 | whole blocks and a zero-padded last one, for every length |
| `Ghash.BuildLenBlock` | src/sslGcm.c:128-133 | both bit lengths modulo 2^64, big-endian |
| `Ghash.GhashFull` | src/sslGcm.c:128-147 | GHASH over padded AAD, padded ciphertext and the length block |
| `Ghash.PadMeans` | src/sslGcm.c:76-82 | the padding is fewer than sixteen zeros behind the data |
| `Ghash.LenBlockFields` | src/sslGcm.c:128-133 | the first eight octets say the AAD's bit length and the last eight the ciphertext's |
| `Ghash.HashOfZeros` | src/sslGcm.c:136-147 | with the identity as hash key and zeros as data, GHASH is the two lengths in their places |
| `Ghash.HashOfOneEach` | src/sslGcm.c:136-147 | for one block of each GHASH is ((aad H + ct) H + lengths) H |
| `Ghash.AbsorbConcat` | src/sslGcm.c:136-147 | absorbing in parts is absorbing the concatenation |
| `Ghash.AbsorbIsPowerSum` | src/sslGcm.c:68-83 | the accumulator equals y H^m plus the sum of block_i H^(m-i+1) |
| `Ghash.HashSpecClosedForm` | src/sslGcm.c:136-147 | GHASH is the closed-form sum over padded AAD, padded ciphertext and length block, in this order |
| `Gcm.BlockCipher.Encrypt` | src/sslGcm.c:100-118 | one block-cipher call; its input is recorded |
| `Gcm.IncrementCounter` | src/sslGcm.c:86-94 | the last four octets count up modulo 2^32, the first twelve stay |
| `Gcm.ComputeJ0` | src/sslGcm.c:122-125 | the nonce followed by the number one in 32 bits |
| `Gcm.XorKeyStream` | src/sslGcm.c:105-116 | the inner loops, with input and output the same or apart |
| `Gcm.GctrBlocks` | src/sslGcm.c:100-110 | the rounds over whole blocks: output so far, counter and cipher inputs |
| `Gcm.Gctr` | src/sslGcm.c:100-118 | counter mode, in place too; nothing else is written; exactly the counter blocks are encrypted |
| `Gcm.GctrInvolution` | src/sslGcm.c:100-118 | applied twice it gives back the input |
| `Gcm.AuthTag` | src/sslGcm.c:183-187 | the tag of a ciphertext is GHASH masked with the encrypted J0; one more cipher call |
| `Gcm.Seal` | src/sslGcm.c:158-188 | ciphertext and tag of SP 800-38D section 7.1 at their offsets, all else unchanged, and every cipher input |
| `Gcm.Differs` | src/sslGcm.c:217-222 | the accumulated comparison finds every difference |
| `Gcm.Open` | src/sslGcm.c:194-229 | succeeds exactly when some plaintext seals to this pair, writes that one, and on failure leaves the buffer unchanged, in place too |
| `Gcm.OpenInvertsSeal` | src/sslGcm.c:158-229 | the accepted pairs are exactly the sealed ones, and the plaintext is unique |
| `GcmRecords.Writer.constructor` | src/tls12Callouts.c:214-285 | an empty queue that satisfies the run invariant |
| `TlsRecords.WriteQueue.Enqueue` | src/tls12Callouts.c:274-281 | the record is linked at the end of the chain, which is otherwise as it was |
| `GcmRecords.Writer.WriteGcmRecord` | src/tls12Callouts.c:214-285 | the queue is exactly the sealed records in order, the sequence number has advanced by as many, the cipher saw exactly their inputs; a failure changes none of it |
| `GcmRecords.FillRecord` | src/tls12Callouts.c:237-268 | header, explicit nonce, ciphertext and tag fill the record |
| `GcmRecords.BuildAad` | src/tls12Callouts.c:185-199 | the octets written are sequence number, type, version and plaintext length, big-endian |
| `GcmRecords.BuildNonce` | src/sslGcmAes.c:92-95 | fixed part then explicit part |
| `GcmRecords.AadFields` | src/tls12Callouts.c:185-199 | each of the four fields is read back from its own octets |
| `GcmRecords.NonceFields` | src/sslGcmAes.c:92-95 | the first four octets are the fixed part, the other eight the explicit one |
| `GcmRecords.AadInjective` | src/tls12Callouts.c:185-199 | the thirteen octets tell sequence number, type, version and length apart |
| `GcmRecords.Reader.DecryptGcmRecord` | src/tls12Callouts.c:410-480 | in place: plaintext where the ciphertext was, each error, context missing or invalid included, and an untouched payload on error |
| `GcmRecords.Reader.ReadRecord` | src/tls12Callouts.c:473-478 | header stripped, opened, and the sequence number advanced on success only, whatever the state of the context |
| `GcmRecords.OpenWire` | src/tls12Callouts.c:410-480 | opening a written record with the same sequence number gives its content |
| `GcmRecords.Delivery` | src/tls12Callouts.c:214-480 | for every run of records of the negotiated version, reading in order gives every content octet for octet |
| `GcmRecords.CounterBlockInjective` | src/sslGcmAes.c:92-95 | a counter block tells its nonce and its counter |
| `GcmRecords.NonceInjective` | src/tls12Callouts.c:252-283 | records of a run of up to 2^64 have different nonces |
| `GcmRecords.CounterIs` | src/sslGcm.c:86-125 | the n-th counter block of a record is its nonce with counter n + 2 |
| `GcmRecords.InputsDistinct` | src/tls12Callouts.c:252-283 | over up to 2^64 records under one key and fixed IV, all J0 and counter blocks differ pairwise and none is the zero block of H |
| `CbcRecords.PayloadShape` | src/tls12Callouts.c:311-364 | the payload is a multiple of the block size and its length fits 16 bits |
| `CbcRecords.PayloadSize` | src/tls12Callouts.c:317-323 | the 16-bit size computation gives the length of the payload and its padding |
| `CbcRecords.MacInputFields` | src/tls12Callouts.c:593-629 | the MAC covers sequence number, type, version and length, each in its octets, and the whole content behind them |
| `CbcRecords.FillPayload` | src/tls12Callouts.c:341-368 | IV, content, MAC and padding at their places behind the header |
| `CbcRecords.FillRecord` | src/tls12Callouts.c:331-373 | header, payload and encryption in place, or the cipher's failure |
| `CbcRecords.FillPadding` | src/tls12Callouts.c:356-364 | every padding octet, the length octet included, holds the padding length |
| `CbcRecords.Writer.constructor` | src/tls12Callouts.c:293-394 | an empty queue that satisfies the run invariant |
| `CbcRecords.Writer.WriteRecord` | src/tls12Callouts.c:293-394 | until the cipher fails, cipher state, counter and linked queue are those of the run of the records written; failures of memory, random numbers, MAC or cipher are told apart and leave queue and counter alone; the cipher's state is what the cipher leaves |
| `CbcRecords.CheckPadding` | src/tls12Callouts.c:516-540 | accepts exactly the padding that the reader's rule describes |
| `CbcRecords.PaddingExactly` | src/tls12Callouts.c:516-540 | that is: the last octet says how often it is repeated at the end |
| `CbcRecords.Reader.FindContent` | src/tls12Callouts.c:507-545 | where the content lies after IV, padding and MAC are taken off, or which error |
| `CbcRecords.Reader.DecryptRecord` | src/tls12Callouts.c:482-557 | in place: content span or error, and after success and every error the buffer and cipher state that the cipher left |
| `CbcRecords.SpanOfPayload` | src/tls12Callouts.c:507-545 | the reader finds the content of a written payload where it was put |
| `CbcRecords.StripPayload` | src/tls12Callouts.c:482-557 | a written payload is stripped to its content, for block and stream ciphers, before and after TLS 1.1 |
| `CbcRecords.StripExactly` | src/tls12Callouts.c:507-557 | a content is accepted exactly from IV, content, the MAC of this content, and padding |
| `CbcRecords.WrongMacExactly` | src/tls12Callouts.c:547-557 | a wrong MAC is reported exactly when everything is in place but the MAC |
| `CbcRecords.SpanOrError` | src/tls12Callouts.c:507-545 | decryption fails exactly on what is too short for a TLS 1.1 block cipher or badly padded |
| `CbcRecords.AcceptedContents` | src/tls12Callouts.c:547-557 | different contents accepted under one sequence number and type were authenticated by MACs of different inputs |
| `CbcRecords.ReadErrors` | src/tls12Callouts.c:495-512 | whole blocks are asked for first, then the cipher, then the layout |
| `CbcRecords.InBoundsExactly` | src/tls12Callouts.c:482-557 | a payload off the wire makes the content length negative exactly when it decrypts to padding, MAC and IV that pass the checks and do not fit |
| `CbcRecords.OverreachingPayloads` | src/tls12Callouts.c:507-545 | two payloads that do, before TLS 1.1 and after |
| `CbcRecords.ReadWritten` | src/tls12Callouts.c:293-557 | reading a written record gives its content and the writer's cipher state; type, version and length stand in the header |
| `CbcRecords.WriteRunSnoc` | src/tls12Callouts.c:293-394 | a run of writes goes on from the state it has come to |
| `CbcRecords.Delivery` | src/tls12Callouts.c:293-557 | every run of writes is read back in order |
| `Prf.PHash` | src/tls12Callouts.c:104-146 | ends for every positive MAC size and writes the first octets of HMAC(A(1)+seed), HMAC(A(2)+seed), ...; fails exactly when one of the HMAC steps it takes fails, and then has written a prefix |
| `Prf.StreamIsPHash` | src/tls12Callouts.c:104-146 | octet-by-octet definition and concatenation of HMACs agree |
| `Prf.PHashPrefix` | src/tls12Callouts.c:104-146 | shorter outputs are prefixes of longer ones |
| `Prf.PRF` | src/tls12Callouts.c:148-175 | P_hash over label and seed, with or without a label, or which failure |
| `Prf.GenerateKeyMaterial` | src/tls12Callouts.c:635-647 | a label inside the seed gives the octets of a separate label |
| `Prf.KeyExpansionText` | src/tls12Callouts.c:635-641 | the label is the text "key expansion" |
| `Sha1.ShsInfo.Init` | cryptkit-vendor/ckSHA1_priv.c:120-131 | initial chaining value and zero count |
| `Sha1.ShsInfo.Expand` | cryptkit-vendor/ckSHA1_priv.c:137-215 | the expanded words are the message schedule |
| `Sha1.ShsInfo.Transform` | cryptkit-vendor/ckSHA1_priv.c:137-215 | the unrolled rounds are the compression function |
| `Sha1.Chooses` | cryptkit-vendor/ckSHA1_priv.c:39-39 | f1 takes y where x is set and z where it is not |
| `Sha1.Majority` | cryptkit-vendor/ckSHA1_priv.c:41-41 | f3 is what two of the three agree on |
| `Sha1.Parity` | cryptkit-vendor/ckSHA1_priv.c:40-42 | f2 and f4 are flipped by every input bit |
| `Sha1.RootConstants` | cryptkit-vendor/ckSHA1_priv.c:46-49 | the constants are the square roots of 2, 3, 5 and 10 times 2^30 |
| `Sha1.ShsInfo.AddCount` | cryptkit-vendor/ckSHA1_priv.c:262-269 | the split counter is the bit count modulo 2^64 |
| `Sha1.CountArithmetic` | cryptkit-vendor/ckSHA1_priv.c:262-269 | carry and high part add up exactly for every count below 2^31 |
| `Sha1.ShsInfo.Update` | cryptkit-vendor/ckSHA1_priv.c:258-283 | folds whole blocks, keeps the rest, counts the bits |
| `Sha1.ShsInfo.StartTail` | cryptkit-vendor/ckSHA1_priv.c:296-309 | zeros up to the length field, with a block of their own where it no longer fits |
| `Sha1.ShsInfo.Final` | cryptkit-vendor/ckSHA1_priv.c:285-319 | both padding cases give the hash of the message |
| `Sha1.HashTail` | cryptkit-vendor/ckSHA1_priv.c:285-319 | hashing the padded message is one or two compressions after the whole blocks |
| `Sha1.FoldConcat` | cryptkit-vendor/ckSHA1_priv.c:258-283 | folding a concatenation is folding in turn |
| `Sha1.Sha1Inst.Reinit` | cryptkit-vendor/ckSHA1.c:121-131 | the object is as new |
| `Sha1.Sha1Inst.TopUp` | cryptkit-vendor/ckSHA1.c:158-174 | the buffer is filled first and handed on when full |
| `Sha1.Sha1Inst.AddData` | cryptkit-vendor/ckSHA1.c:144-198 | the message grows by the data, or is left alone once done |
| `Sha1.Sha1Inst.Digest` | cryptkit-vendor/ckSHA1.c:200-220 | the hash of all that was added, and the bit count of it; again and again |
| `Sha1.HashChunks` | cryptkit-vendor/ckSHA1.c:144-220 | however the message is split the digest is that of the concatenation; later data is ignored, later digests are equal |
| `Sha1Vector.AbcDigest` | cryptkit-vendor/ckSHA1_priv.c:137-319 | the digest of "abc" is that of appendix A of FIPS 180-1 |
| `Crc64.TableGenerated` | Security-55471/authd/crc.c:29-125 | every literal table entry is what the bit-serial generator gives |
| `Crc64.TableStep` | Security-55471/authd/crc.h:25-35 | one table step is eight bit-serial steps |
| `Crc64.Update` | Security-55471/authd/crc.h:25-35 | the table loop computes the bit-serial register |
| `Crc64.SerialConcat` | Security-55471/authd/crc.h:25-35 | updating in parts is updating with the concatenation |
| `Crc64.Crc` | Security-55471/authd/crc.h:37-47 | initial value, update and final complement |
| `Crc64.CheckValue` | Security-55471/authd/crc.h:37-47 | the octets of "123456789" give the known check value 62ec59e3f1a4f00a |
| `Crc64.SerialRemainder` | Security-55471/authd/crc.c:29-125 | the register is the remainder of message and initial value by the ECMA-182 polynomial |
| `Crc64.SerialInjective` | Security-55471/authd/crc.h:25-35 | equal registers after equal octets were equal before |
| `Crc64.BurstDetected` | Security-55471/authd/crc.h:37-47 | buffers that differ within 8 consecutive octets get different CRCs |
| `Crc64.UserIdentityExact` | Security-55471/authd/credential.c:54-77 | comparing hashes of user credentials is comparing uid and shared flag |
| `RuleEngine.CombineCounts` | Security-55471/authd/engine.c:715-757 | when the aborting delegate loop succeeds, for every k: by counting over prefixes, by all, or by the last |
| `RuleEngine.ReachesCount` | Security-55471/authd/engine.c:715-757 | without aborts it succeeds exactly when at least k delegates do |
| `RuleEngine.CombineFailure` | Security-55471/authd/engine.c:715-757 | a failing loop reports the delegate it stopped at: an abort, one that put k out of reach, or the last |
| `RuleEngine.LoopKeeps` | Security-55471/authd/engine.c:715-757 | two runs of the loop side by side: a success stays one or becomes an internal error, for every k |
| `RuleEngine.CombineMonotone` | Security-55471/authd/engine.c:715-757 | without aborts more successes never lose the success |
| `RuleEngine.EvaluateNoAbort` | Security-55471/authd/engine.c:825-859 | evaluation without interaction is never canceled, and ends in an internal error only through an invalid class |
| `RuleEngine.EvaluateKeeps` | Security-55471/authd/engine.c:825-859 | over every tree, more satisfiable user rules turn success into success or an internal error only |
| `RuleEngine.EvaluateMonotone` | Security-55471/authd/engine.c:825-859 | over trees without invalid classes they never lose a success |
| `RuleEngine.MoreCredentials` | Security-55471/authd/engine.c:286-363 | adding credentials of new identities never turns success into anything else, in trees without invalid classes |
| `RuleEngine.MoreCredentialsAnyTree` | Security-55471/authd/engine.c:286-363 | in any tree it turns success into success or an internal error |
| `RuleEngine.InvalidClassNotMonotone` | Security-55471/authd/engine.c:825-859 | a tree with an invalid class where one fresh root credential turns success into an internal error |
| `RuleEngine.Outdoes` | Security-55471/authd/engine.c:286-363 | a credential that satisfies a rule its equal did not satisfies all the rules that one did |
| `RuleEngine.SatisfiesExactly` | Security-55471/authd/engine.c:286-363 | a credential satisfies a user rule exactly when it is valid, not expired, not shared where that is off, and of root, the session's owner or a member of the group |
| `RuleEngine.IgnoringShared` | Security-55471/authd/engine.c:314-320 | where sharing is ignored the shared flag does not count, and nothing else changes |
| `RuleEngine.UserStatusExactly` | Security-55471/authd/engine.c:621-697 | a user rule succeeds exactly by entitlement, root creator, session credential, a satisfying credential or preauthorization, and otherwise denies or misses interaction |
| `RuleEngine.GrantsExactly` | Security-55471/authd/engine.c:825-859 | evaluation of a tree without invalid classes succeeds exactly when the tree grants, by class and k of n, down to the leaves |
| `RuleEngine.SuccessNeedsGrant` | Security-55471/authd/engine.c:825-859 | in any tree success needs a leaf that grants |
| `RuleEngine.LeafFailures` | Security-55471/authd/engine.c:825-859 | how rules without delegates fail: denied, interaction missing, or internal error |
| `RuleEngine.WriteKeepsSat` | Security-55471/authd/engine.c:671-682 | the credential written during evaluation changes no later answer |
| `RuleEngine.Engine.SetCredential` | Security-55471/authd/engine.c:1251-1261 | replaces an equal credential, adds a shared copy when asked to, keeps the others |
| `RuleEngine.Engine.Find` | Security-55471/authd/engine.c:645-683 | finds a satisfying credential exactly when there is one |
| `RuleEngine.Engine.EvaluateUser` | Security-55471/authd/engine.c:621-713 | the status from the credentials at the start, in whatever order they are visited |
| `RuleEngine.Engine.EvaluateDelegates` | Security-55471/authd/engine.c:715-757 | the early-aborting loop over a changing engine is the combination of all delegate results |
| `RuleEngine.Engine.EvaluateRule` | Security-55471/authd/engine.c:825-859 | recursive evaluation equals the pure evaluation over the initial credentials |
| `Mechanisms.Interrupter` | Security-55471/authd/engine.c:427-441 | the first mechanism before the current one that is builtin or interrupts |
| `Mechanisms.FindInterrupter` | Security-55471/authd/engine.c:427-441 | the loop over earlier mechanisms finds that one |
| `Mechanisms.ProgressStep` | Security-55471/authd/engine.c:398-495 | moving on after Allow or back keeps every earlier mechanism last allowed |
| `Mechanisms.RunFailures` | Security-55471/authd/engine.c:476-494 | the status of every way in which the loop fails |
| `Mechanisms.RunGoesOn` | Security-55471/authd/engine.c:427-455 | the loop goes on at the first agent that interrupts, or with the next mechanism after Allow |
| `Mechanisms.SuccessMeansAllowed` | Security-55471/authd/engine.c:398-495 | for every interrupt schedule and mix of agents and builtin mechanisms, success means that the latest result of every mechanism was Allow |
| `Mechanisms.FaultsExactly` | Security-55471/authd/engine.c:427-429 | some schedule makes the loop ask for an agent that does not exist exactly when an agent-backed mechanism comes after builtin ones that all allow |
| `Mechanisms.EvaluateMechanisms` | Security-55471/authd/engine.c:398-495 | the loop computes that run: status, end of the schedule or missing agent |
| `RuleLookup.LastDot` | Security-55471/authd/engine.c:892-898 | the last dot, or none |
| `RuleLookup.FindRule` | Security-55471/authd/engine.c:861-914 | ends on every string and gives the exact right, else the longest dot-terminated stored prefix, else the default |
| `RuleLookup.CorrectUnique` | Security-55471/authd/engine.c:861-914 | that answer is unique |
| `RuleLookup.LookupExamples` | Security-55471/authd/engine.c:861-914 | four lookups: longest prefix, exact name, stored and builtin default |
| `RuleImport.FetchSame` | Security-55471/authd/rule.c:542-567 | the recursive fetch ends on every acyclic closed map and gives one tree |
| `RuleImport.FetchChildren` | Security-55471/authd/rule.c:542-567 | the children of a fetched rule are its delegates in stored order |
| `RuleImport.AcyclicExactly` | Security-55471/authd/rule.c:721-803 | storing a row keeps the map acyclic exactly when no delegate of it leads back to it |
| `RuleImport.NewRuleSafe` | Security-55471/authd/rule.c:748-803 | committing a new name whose delegates are stored keeps the map closed and acyclic |
| `RuleImport.UpdateCanCycle` | Security-55471/authd/rule.c:721-803 | an update that is newer, whose delegates are stored and which is committed closes a cycle |
| `RuleImport.AuthDb.Commit` | Security-55471/authd/rule.c:721-803 | refused exactly when a delegate is missing, the name was taken meanwhile or the database refuses; otherwise the row has the rule's version and delegates and nothing else changes |
| `RuleImport.AuthDb.Delayed` | Security-55471/authd/authdb.c:869-886 | rules, not rights, wait for delegates that are not stored |
| `RuleImport.AuthDb.ImportRules` | Security-55471/authd/authdb.c:843-904 | one pass: version check, delay, commit, and what is handed back in order |
| `RuleImport.AuthDb.ImportPlist` | Security-55471/authd/authdb.c:906-958 | up to three passes over rules, one over rights, and a verdict about the rights |
| `RuleImport.PassNew` | Security-55471/authd/authdb.c:843-904 | a pass over new names keeps the map closed and acyclic, stores whatever had its delegates at the start, and hands back exactly the rest |
| `RuleImport.PassRows` | Security-55471/authd/rule.c:646-669 | whatever a pass over new names stores has the version and the delegates of the rule |
| `RuleImport.ImportRows` | Security-55471/authd/authdb.c:906-958 | after an import of new names every rule and right that is stored is stored as it was read |
| `RuleImport.PassUpdates` | Security-55471/authd/authdb.c:852-866 | a stored rule is replaced when it is newer or versions are not checked, and left alone otherwise |
| `RuleImport.PassesReach` | Security-55471/authd/authdb.c:932-941 | after p passes every rule of delegation depth below p is stored, in any order |
| `RuleImport.ImportKeeps` | Security-55471/authd/authdb.c:843-958 | updates included, the map stays closed and, with the version check, rows are only replaced by newer ones |
| `RuleImport.ImportNew` | Security-55471/authd/authdb.c:906-958 | importing new names keeps closed and acyclic, touches no stored row, stores depth at most 2 and all rights on top of it |
| `RuleImport.PassesWithin` | Security-55471/authd/authdb.c:932-941 | when deeper rules come first, p passes store nothing of depth p or more |
| `RuleImport.WorstOrderExists` | Security-55471/authd/authdb.c:932-941 | every list of new rules has an order in which p passes store the rules of depth below p and no others |
| `RuleImport.StoredExactly` | Security-55471/authd/authdb.c:932-941 | after p passes a rule is stored in every order exactly when its depth is below p |
| `RuleImport.ImportStoresExactly` | Security-55471/authd/authdb.c:906-958 | the import stores a rule in every order exactly when its depth is at most 2 |
| `RuleImport.SuccessMeansStored` | Security-55471/authd/authdb.c:932-949 | with rights that rest on depth at most 2, success is always reported, and it means that all rules are stored exactly when none is deeper |
| `RuleImport.DepthThreeLost` | Security-55471/authd/authdb.c:932-949 | four new rules in a chain, over any database, have an order in which one is lost and success is reported |
| `Der.LengthRoundTrip` | src/tls12_chainverify.c:272-286 | reading a DER length below 2^24 gives what was encoded, whatever follows |
| `Der.LengthIsBigEndian` | src/tls12_chainverify.c:272-284 | the long form is a count of octets and a big-endian number |
| `Der.LengthRefused` | src/tls12_chainverify.c:272-284 | no indefinite length, none of more than three octets, none cut off |
| `Der.ReadLength` | src/tls12_chainverify.c:272-286 | the octet loop reads that length inside the buffer and inside an int |
| `SanScan.HostnameMatches` | src/tls12_chainverify.c:215-249 | equal ignoring case, or "*." and the host after one non-empty dot-free label |
| `SanScan.WildcardAtFirstDot` | src/tls12_chainverify.c:232-246 | the label that a wildcard stands for ends at the first dot |
| `SanScan.LowerLetters` | src/tls12_chainverify.c:222-225 | letters lose their case and nothing else changes |
| `SanScan.WildcardExamples` | src/tls12_chainverify.c:215-249 | a wildcard takes exactly one label |
| `SanScan.SanMatchesHost` | src/tls12_chainverify.c:260-298 | on any octets: ends, reads in bounds, no overflow, and answers as the scan specification |
| `SanScan.ScanSound` | src/tls12_chainverify.c:260-298 | on any octets a match comes from a dNSName header directly followed by the matching octets, as many as it says |
| `SanScan.ScanExact` | src/tls12_chainverify.c:260-298 | on every encoded tree of elements the flat scan searches exactly the leaves |
| `SanScan.SanExact` | src/tls12_chainverify.c:260-298 | an encoded subjectAltName is accepted exactly when some non-empty dNSName matches |
| `SanScan.OtherNameSearched` | src/tls12_chainverify.c:289-291 | a subjectAltName of one otherName is accepted exactly when a leaf inside it matches |
| `SanScan.OtherNameMatches` | src/tls12_chainverify.c:289-291 | seven octets with a match inside an otherName |
| `SanScan.DirectoryNameSkipped` | src/tls12_chainverify.c:292-295 | seven octets with a name inside a directoryName, which is skipped |
| `RsaKey.DerInt` | src/tls12_chainverify.c:838-858 | value without sign octet and the position after it, or an error, within bounds |
| `RsaKey.ExtractRsaPublicKey` | src/tls12_chainverify.c:886-909 | modulus and exponent of the outer sequence, or an error |
| `RsaKey.IntegerRoundTrip` | src/tls12_chainverify.c:838-858 | an encoded positive INTEGER is read back anywhere in a buffer |
| `RsaKey.KeyRoundTrip` | src/tls12_chainverify.c:886-909 | an encoded key is read back exactly when its numbers are within the allowed sizes |
| `RsaKey.SignOctet` | src/tls12_chainverify.c:853-854 | one zero in front goes, a second or a lone one stays |
| `RsaKey.SmallKey` | src/tls12_chainverify.c:886-909 | the octets of a small key and its two numbers |
| `ChainCheck.FindIssuer` | src/tls12_chainverify.c:681-691 | whether some other certificate verifies this one |
| `ChainCheck.MarkVerified` | src/tls12_chainverify.c:677-693 | which certificates have an issuer, and whether there is any link |
| `ChainCheck.FindTop` | src/tls12_chainverify.c:695-698 | the count tells apart none, exactly one and several unverified |
| `ChainCheck.CheckLinks` | src/tls12_chainverify.c:674-710 | accepts exactly when there is a top and swaps it to the end, keeping the certificates |
| `ChainCheck.AllInTime` | src/tls12_chainverify.c:715-724 | every certificate is within its validity |
| `ChainCheck.IsAnchored` | src/tls12_chainverify.c:727-750 | libcrypto accepts the top, or fails on its signature only and an anchor verifies it |
| `ChainCheck.CheckByHand` | src/tls12_chainverify.c:663-768 | once entered, the verdict is a predicate of the certificates as a multiset and of the store |
| `ChainCheck.CheckChain` | src/tls12_chainverify.c:630-768 | libcrypto's verdict on the first certificate, or, when that failed on a signature and only then, the one by hand |
| `ChainCheck.VerifiedAtMeans` | src/tls12_chainverify.c:680-693 | finding an issuer does not depend on positions |
| `ChainCheck.TopAt` | src/tls12_chainverify.c:695-710 | one position without issuer is one certificate, occurring once, without issuer |
| `ChainCheck.RestReordered` | src/tls12_chainverify.c:630-768 | reordering the certificates after the first changes neither whether the check is entered nor any verdict |
| `ChainCheck.Reordered` | src/tls12_chainverify.c:656-768 | two orders of the same certificates, when both enter the check, get the same verdict from every libcrypto exactly when the same certificate comes first |
| `ChainCheck.OrderMatters` | src/tls12_chainverify.c:656-768 | with different ones first, a libcrypto that lets both orders enter the check and one of them through |
| `ChainCheck.NoTopRejected` | src/tls12_chainverify.c:694-724 | without a top among two or more certificates in time every order is rejected |
| `ChainCheck.NeverByHand` | src/tls12_chainverify.c:715-727 | a lone certificate and one out of its time are never accepted by hand |
| `ChainCheck.OwnSignature` | src/tls12_chainverify.c:680-691 | a certificate's own key does not make it verified, unless it comes twice |
| `ChainCheck.AnchoredBy` | src/tls12_chainverify.c:725-750 | an accepted top is verified by an anchor's key, or came later and libcrypto calls it valid |
| `ChainCheck.VouchedExactly` | src/tls12_chainverify.c:656-768 | acceptance by hand means that an anchor's key verifies the top, whatever libcrypto answers, exactly when one does or the top comes first |
| `ChainCheck.AnchorNotNeeded` | src/tls12_chainverify.c:617-628 | a top that comes later is in the store and can be accepted without an anchor's signature on it |
| `ChainCheck.AllLeadToTop` | src/tls12_chainverify.c:656-768 | without signing circles every certificate leads to the top |
| `ChainCheck.WalkEndsAtTop` | src/tls12_chainverify.c:656-768 | every walk along issuers is bounded and can only stop at the top |
| `ChainCheck.AcceptedIsAnchored` | src/tls12_chainverify.c:656-768 | without signing circles, acceptance by hand means one top where every walk ends, verified by an anchor's key unless it came later and libcrypto calls it valid |
| `ChainCheck.LeadsExactly` | src/tls12_chainverify.c:656-768 | every certificate leads to the top exactly when no group signs only among itself |
| `ChainCheck.CrossSigningAccepted` | src/tls12_chainverify.c:656-768 | two certificates that sign each other enter the check and are accepted beside an anchored top, and neither leads to it |

## Left out

- AES, HMAC, the CBC and stream ciphers, ECDSA and X509_verify_cert are parameters; so are group membership, entitlements, the clock, random IVs and whether memory is available.
- The constant-time aspect of the tag comparison, key schedules, dlopen, locking, logging, XPC and memory release.
- The export key derivation and the Finished and CertificateVerify digests: they only call the PRF or hashes.
- SSLEncodeUInt64, IncrementUInt64, SSLVerifyMac and SSLReadRecord are not part of this model: they are taken as big-endian encoding, plus one on 64 bits, recompute and compare, and strip the header then count.
- Sha1.Sha1Inst.AddData: a call that hands 2^31 octets or more of whole blocks to shsUpdate is excluded, because shsUpdate counts in an int, which would be negative; the bound in the contract is exactly that.
- Sha1.HashChunks: the same bound, chunk by chunk.
- SHA-1's LONG is 32 bits and words are big-endian, as the shift by 29 and the empty byteReverse presume; the counter wraps at 2^64 bits.
- RuleEngine.Engine.EvaluateUser: the evaluation without the interaction flag; asking a user through agents (engine.c:497-586, 694-712) is not modelled, nor is least-privileged mode, where right credentials are created on the way and monotonicity does not hold.
- RuleEngine.Engine.EvaluateRule: rules of class mechanism (engine.c:759-823) are not modelled, because they run agents; the mechanism loop itself is.
- RuleEngine.Engine.SetCredential: credentials are keyed by identity; that equal hashes mean equal identities is proved for user credentials (`Crc64.UserIdentityExact`), not for right credentials, whose names can collide.
- Mechanisms.EvaluateMechanisms: the hints and context items copied between agents are not modelled; what agents return and when they interrupt is a schedule.
- SQLite: tables are a map from name to row, a commit is atomic, and failures of its own are a set of refused names. Row removal, mechanisms, localization and schema upgrade are not modelled.
- SanScan.SanMatchesHost: buffers up to 2^31 - 2^24 - 2 octets, the length up to which the scan's index cannot leave an int whatever the octets.
- SanScan.SanExact: otherName is covered by `SanScan.ScanExact`, as a tree of elements; lengths of 2^24 and more are not.
- ChainCheck.CheckChain: a certificate that does not parse and an anchor bundle that cannot be read come before and are not modelled. libcrypto's answer depends on the certificate and on which certificates are in the store, not on the order in which they were added.
- tls12_trusteval.c repeats the matcher and the chain check; auth tokens, processes, connections, the agents' transport and the token daemon are plumbing.
