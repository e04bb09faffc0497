# COP: a verified model of transaction certificates, enrollment and tokens

COP is a certificate authority for Hyperledger Fabric. A member registers, logs in with a one-time secret to
get an enrollment certificate, and may then ask for batches of unlinkable transaction certificates (TCerts).
Several servers may share one database. This project models, in Dafny:

- **TCert batches** (`Cbc`, `AttrHeader`, `Extensions`, `Batch`): CBC and PKCS#7 written out, the extension
  loop, the index and scalar derivation, and the owner's side of it. AES, HMAC and the curve are parameters;
  the only laws assumed are that block decryption inverts block encryption and that multiplying the base point
  is a homomorphism modulo the order.
- **The key tree** (`KeyTree`): the memoised recursion against the plain fold over a path.
- **The user registry** (`Registry`, `Enrollment`, `Bootstrap`, `Certificates`): tables as sequences of rows,
  SQL statements as row-wise updates that return counts, and all runs of register, login and revoke steps.
- **Clusters** (`Cluster`, `Potential`): login split into its read and its absolute write, with any number of
  handlers interleaved at will.
- **Tokens and random secrets** (`Token`, `Random`): unpadded base64, the two-part signed token, and the
  bit-slicing rejection loop. `Common` holds bytes, exclusive or, Split/Join and decimal numerals.

`dafny verify dfyconfig.toml` checks the whole project. Clocks, random draws, parsed input and failures of foreign
calls are parameters. Go panics are the outcome `Panic`. Maps iterated in an unspecified order are iterated by
`:|`, so the results hold for every order.

## Main results

1. The holder of the enrollment key can decrypt the index of every certificate of every batch and recompute
   its private key (`Batch.OwnerHoldsPrivateKey`, and from request to keys in `Batch.GetOwnedBatch`).
2. With `c` handlers interleaving reads and writes, a user with maximum `m` whom `r` revocations by name hit
   logs in at most `B(m) + r * B(m+1)` times, for every schedule (`Cluster.InterleavedLoginsAreBounded`), and
   some schedule reaches exactly that (`Cluster.BoundIsAttained`). Where an update reports the rows that match,
   as on SQLite and Postgres, `B(m) = C(c+m, m) - 1`. Where it reports only rows that change, as the MySQL
   driver does without `clientFoundRows` (vendor/github.com/go-sql-driver/mysql/README.md:172-180),
   `B(m) = C(c+m, m) - C(c+m-2, m) - 1` for two or more handlers, and the same as before for fewer.
   So the maximum holds in all runs exactly when there is no handler, or no revocation and either a single
   handler or, on MySQL, a maximum of 1 (`Cluster.MaximumHoldsIff`).
3. In atomic runs the state column counts logins exactly, and a login succeeds exactly with the right secret
   and below the maximum (`Enrollment.StateCountsLogins`, `Enrollment.LoginSucceedsIff`).
4. The key-tree cache agrees with the uncached tree, after any history and with any failures, when no two
   nodes passed have the same joined path; for the free derivation the condition is also necessary
   (`KeyTree.CacheAgreesWithFold`, `KeyTree.CacheSoundIffNoCollision`).
5. Decryption inverts encryption and conversely; a token that was created verifies, and acceptance of
   arbitrary bytes is characterised (`Cbc.OpenSeal`, `Cbc.SealOpen`, `Token.VerifyAcceptsExactly`).

## Where the code and its documentation differ

The model follows the code in each case.

- The repository's own README.md, in lines 61-63, promises that `max_enrollments` limits how often a secret may
  be used. In a cluster it does not, save in the cases of result 2. Two handlers and a maximum of 2 allow five
  logins on Postgres and four on MySQL (`Cluster.TwoHandlersMaximumTwo`).
- Revocation by name is logged as disabling the user (cli/server/revoke.go:96-101). It sets the state to -1,
  so the next login succeeds whatever the maximum (`Enrollment.RevokedUserLogsIn`), and so do later ones as
  long as at most `m` have succeeded since the revocation (`Enrollment.LoginAfterRevocation`).
- The TCert nonce is described as eight random bytes and a timestamp (lib/tcert/tcert.go:134); the last eight
  bytes stay zero.
- An encrypted attribute named "enrollmentId" replaces the enrollment key among the keys handed out. Reading
  the enrollment id back is proved for every other request, and for each such request there is lawful
  cryptography under which it fails (`Extensions.EnrollmentIdReadsBack`, `Extensions.EnrollmentNameMisreads`).
- The attributes header gives its map back exactly when no name contains "#" (`AttrHeader.HeaderDeterminesMap`).
- Opening a ciphertext that is just an initialisation vector panics, and nothing else does
  (`Cbc.OpenPanicsOnBareVector`). Decryption overwrites the caller's buffer (`Cbc.CBCDecrypt`).
- A batch request with an enrollment certificate that is not ECDSA panics, and a count of 2^63 or more gives
  an empty batch (`Batch.GetBatch`).
- For public keys that are neither RSA nor ECDSA, token creation returns an empty token without an error, and
  verification checks no signature (`Token.OtherKeysGiveNoToken`, `Token.VerifyAcceptsExactly`).

## Model

| member | source | states |
|---|---|---|
| `Cbc.DecipherEncipher` | lib/tcert/util.go:105-106 | block-wise CBC decryption inverts CBC encryption, for every key, vector and whole-block message |
| `Cbc.EncipherDecipher` | lib/tcert/util.go:252-255 | the other direction, where the block function permutes blocks |
| `Common.XorIsBitwise` | lib/tcert/util.go:105-106 | a bit of the exclusive or is set exactly where the operands' bits differ |
| `Cbc.EncipherIsCbc` | lib/tcert/util.go:105-106 | CBC by index: each ciphertext block encrypts the bitwise exclusive or of its plaintext block and the ciphertext block before it, the vector first |
| `Cbc.DecipherIsCbc` | lib/tcert/util.go:252-255 | CBC by index: each plaintext block is the bitwise exclusive or of the decrypted block and the ciphertext block before it |
| `Cbc.UnpadPad` | lib/tcert/util.go:114-119 | unpadding returns every padded message |
| `Cbc.UnpadAcceptsImagesOfPad` | lib/tcert/util.go:268-285 | on non-empty whole blocks unpadding accepts exactly the images of padding, returns the unique preimage and never panics |
| `Cbc.PKCS7UnPadding` | lib/tcert/util.go:268-285 | the loop computes unpadding, including both index panics |
| `Cbc.EncryptBlocks` | lib/tcert/util.go:105-106 | the buffer holds the vector followed by block-wise CBC of the plaintext |
| `Cbc.CBCEncrypt` | lib/tcert/util.go:82-112 | fails exactly on a partial block, a key length other than 16, 24 or 32, or a failed random read; else the vector and then the chained blocks, by index and on bits |
| `Cbc.CryptBlocks` | lib/tcert/util.go:252-255 | decryption in place equals block-wise CBC decryption of the original buffer |
| `Cbc.CBCDecrypt` | lib/tcert/util.go:229-266 | the three error cases leave the buffer alone; else the buffer is overwritten by the plaintext returned, which is chained by index and on bits |
| `Cbc.CBCPKCS7Encrypt` | lib/tcert/util.go:77-80 | pads and encrypts; fails exactly on a bad key length or a failed random read |
| `Cbc.CBCPKCS7Decrypt` | lib/tcert/util.go:212-227 | decrypts in place and unpads; the buffer ends as the vector and the padded plaintext, or as it was |
| `Cbc.OpenSeal` | lib/tcert/util.go:77-119 | every message comes back, for every usable key and vector |
| `Cbc.SealOpen` | lib/tcert/util.go:212-285 | a ciphertext opens to m if and only if some vector seals m to it |
| `Cbc.OpenPanicsOnBareVector` | lib/tcert/util.go:268-270 | opening panics if and only if the key is usable and the input is one block |
| `AttrHeader.BuildAttributesHeader` | lib/tcert/tcert.go:297-303 | the header is the rendering of the map in some iteration order |
| `AttrHeader.ParseOfBody` | lib/tcert/tcert.go:299-301 | one entry splits at its last arrow into exactly its name and position, arrows in the name included |
| `AttrHeader.HeaderDeterminesMap` | lib/tcert/tcert.go:297-303 | for every iteration order, parsing the header gives the map back if and only if no name contains "#" |
| `AttrHeader.HashInNameIsAmbiguous` | lib/tcert/tcert.go:297-303 | every two-name map shares a header with a one-name map whose name contains "#" |
| `Extensions.GenerateExtensions` | lib/tcert/tcert.go:220-295 | succeeds exactly when all draws do; then identifiers, criticality, contents, header and keys are as specified |
| `Extensions.OidsDistinct` | lib/tcert/tcert.go:276-292 | all extension identifiers of a certificate differ |
| `Extensions.FindNumbered` | lib/tcert/tcert.go:276-292 | looking an identifier up finds the extension it was given to |
| `Extensions.LastPosition` | lib/tcert/tcert.go:249-258 | the header map holds exactly the names that occur, each with its last position |
| `Extensions.KeyOfAttribute` | lib/tcert/tcert.go:260-274 | every encrypted attribute's key is handed out under its name |
| `Extensions.KeyOfEnrollment` | lib/tcert/tcert.go:245-273 | the key handed out as "enrollmentId" is the enrollment key unless an encrypted attribute has that name |
| `Extensions.HandedOutKeys` | lib/tcert/tcert.go:226-273 | every key handed out is the first 32 bytes of the hash of the name, keyed by the hash of the serial number's shortest big-endian form under the request's key |
| `Extensions.NamesGiveDifferentKeys` | lib/tcert/tcert.go:260-274 | for any two names there is a hash under which a certificate's keys for them differ |
| `Extensions.SerialsGiveDifferentKeys` | lib/tcert/tcert.go:226-229 | for any two serial numbers there is a hash under which the keys for a name differ |
| `Extensions.HeaderReadsBack` | lib/tcert/tcert.go:289-292 | the header found in the certificate parses to the name-to-position map |
| `Extensions.AttributesReadBack` | lib/tcert/tcert.go:220-295 | reading a name gives the value of its last attribute, in the clear or decrypted, and fails for names not asked for |
| `Extensions.EnrollmentIdReadsBack` | lib/tcert/tcert.go:231-246 | the enrollment id decrypts under the key handed out unless an encrypted attribute is named "enrollmentId"; which key is handed out, as an if and only if |
| `Extensions.KeysAgreeWhereReadBack` | lib/tcert/tcert.go:231-246 | where the enrollment id reads back, the key handed out decrypts some block as the enrollment key does |
| `Extensions.EnrollmentNameMisreads` | lib/tcert/tcert.go:245-273 | for every request with such an attribute, a lawful cipher and hash under which the enrollment id does not read back |
| `Batch.GetBatch` | lib/tcert/tcert.go:99-206 | when it panics, fails and succeeds; the size, which is the one asked for exactly below 2^63; the key returned; and each certificate's key, serial, validity and extensions |
| `Batch.IndexReadsBack` | lib/tcert/tcert.go:151-182 | the owner decrypts the index extension of certificate i to index i |
| `Batch.ComputeIndex` | lib/tcert/tcert.go:151-154 | the loop's steps build the index that the other members speak of |
| `Batch.DeriveScalar` | lib/tcert/tcert.go:160-168 | the loop's steps derive the scalar that the other members speak of, between 1 and the order minus 1 |
| `Batch.CertificateSpelledOut` | lib/tcert/tcert.go:151-182 | for certificate i: its index is 2i + 1 in decimal, nonce, zeros and padding, read with the first 32 bytes of hmac(key, {1}); its public key is the enrollment key plus k times the base point, k - 1 being the number that hmac(hmac(key, {2}), index) denotes by position, modulo the order less one |
| `Batch.IndexesGiveDifferentKeys` | lib/tcert/tcert.go:160-172 | for any two certificates of a batch there is lawful cryptography under which their public keys differ |
| `Common.FromBigEndianIsPositional` | lib/tcert/tcert.go:166-166 | bytes are read as the number they denote by position, the first counting most |
| `Common.BigEndianRoundTrip` | lib/tcert/tcert.go:228-228 | the bytes of a number have no leading zero and read back as the number |
| `Batch.OwnerHoldsPrivateKey` | lib/tcert/tcert.go:139-202 | decrypting the index and redoing the derivation gives the private key of every certificate of every batch |
| `Batch.IndexesDistinct` | lib/tcert/tcert.go:151-154 | indexes are injective in i for every i that a 64-bit int holds, wrap-around included |
| `Batch.BatchMembers` | lib/tcert/tcert.go:116-154 | two certificates of a batch have different indexes and the same validity, the smaller of the positive request and the configured period |
| `Batch.GetOwnedBatch` | lib/tcert/tcert.go:99-206 | end to end: whenever the holder of d gets a batch, what it computes from key and certificates are the certificates' private keys, and the indexes it reads all differ |
| `KeyTree.FoldConcat` | lib/tcert/keytree.go:26-38 | the key of p + q is the fold of q from the key of p |
| `KeyTree.Tree.constructor` | lib/tcert/keytree.go:44-51 | a new tree has its root key and an empty cache |
| `KeyTree.Tree.GetKey` | lib/tcert/keytree.go:60-94 | the result and the new cache are those of the recursive lookup, for any pattern of derivation failures |
| `KeyTree.SepFreePathsDoNotCollide` | lib/tcert/keytree.go:65-68 | histories over "/"-free paths keep all nodes apart |
| `KeyTree.LookupSound` | lib/tcert/keytree.go:60-81 | one call keeps the cache sound; what it returns is the fold; it fails only where the fold or a derivation does |
| `KeyTree.CacheSound` | lib/tcert/keytree.go:60-81 | after any history every cached key is the fold of a node that was passed |
| `KeyTree.CacheAgreesWithFold` | lib/tcert/keytree.go:60-94 | any key returned in any history is the plain fold; calls without failures return exactly what the uncached tree does |
| `KeyTree.CacheSoundIffNoCollision` | lib/tcert/keytree.go:65-79 | on failure-free histories the cache agrees with the free uncached tree if and only if no two nodes passed have the same join |
| `KeyTree.Reverse` | cli/server/ldap/client.go:305-313 | the loop reverses its input |
| `KeyTree.GetAffiliationPath` | cli/server/ldap/client.go:295-298 | the comma-separated components in reverse |
| `KeyTree.AffiliationPathGivesName` | cli/server/ldap/client.go:295-298 | the components in reverse, joined with commas, give the name back, and none contains a comma |
| `KeyTree.LongerNameExtendsPath` | cli/server/ldap/client.go:295-298 | extra leading components of a name extend its affiliation path at the end |
| `KeyTree.AffiliationPathIsSepFree` | cli/server/ldap/client.go:295-298 | names without "/" have "/"-free paths |
| `KeyTree.GroupPathIsSepFree` | cli/server/dbaccessor.go:370-370 | a group's path is always "/"-free and joins back to the group |
| `KeyTree.ParentKeyDerivesChildKey` | lib/tcert/keytree.go:26-38 | in any history over "/"-free paths, where two calls meet no failure, the key returned for an entry derives the key returned for every entry below it |
| `Registry.SelectAfterSetState` | cli/server/dbaccessor.go:419-420 | an update of the state changes what is read for that id and for no other |
| `Registry.SelectAfterInsert` | cli/server/dbaccessor.go:136-142 | an insert adds a row that is found exactly where none was before |
| `Registry.AffectedOfUnique` | cli/server/dbaccessor.go:425-437 | where ids are unique an update affects one row or none, whether matching or changed rows are counted |
| `Registry.Accessor.InsertUser` | cli/server/dbaccessor.go:122-166 | appends the row, with state and maximum 0 |
| `Registry.Accessor.UpdateField` | cli/server/dbaccessor.go:224-251 | sets state or maximum of all rows of the id, refuses other fields |
| `Registry.Accessor.GetUser` | cli/server/dbaccessor.go:276-292 | a snapshot of the id's row, if any |
| `Registry.Accessor.NewDBUser` | cli/server/dbaccessor.go:363-379 | the snapshot, with the group split into a path and the attributes folded into a map |
| `Registry.LastValueWins` | cli/server/dbaccessor.go:371-376 | the attribute map holds exactly the names listed, each with its last value |
| `Registry.Accessor.Login` | cli/server/dbaccessor.go:397-446 | checks the snapshot and writes the snapshot's state plus one, whatever the table holds; the outcome by matching or by changed rows, as the driver counts |
| `Registry.LoginAffectsOneRow` | cli/server/dbaccessor.go:419-437 | where ids are unique both wrong-row-count branches are unreachable for a user just read, whichever rows are counted |
| `Registry.DuplicateRowsBlockLogin` | cli/server/dbaccessor.go:419-437 | where two rows of an id are counted, a login that passes the checks fails and yet writes all of them |
| `Registry.Accessor.InsertGroup` | cli/server/dbaccessor.go:294-316 | appends the group |
| `Registry.Accessor.GetGroup` | cli/server/dbaccessor.go:334-350 | the first group of that name, if any |
| `Enrollment.StrContained` | util/util.go:346-354 | true if and only if some element has the same lower case |
| `Enrollment.RequireGroup` | cli/server/register.go:199-209 | a group is required exactly for types whose lower case is client or peer |
| `Enrollment.CanRegister` | cli/server/register.go:211-231 | the registrar may register the type, as the next row says |
| `Enrollment.MayRegisterExactly` | cli/server/register.go:211-231 | a registrar with a row may register a type if and only if, in some letter case, it is among the comma-separated parts of the last, non-empty value of hf.Registrar.Roles |
| `Enrollment.RegisterUser` | cli/server/register.go:97-185 | succeeds exactly when the registrar may, the group exists where needed and the id is free; then it returns the secret given, or the random one where none was, and adds one row with it, column by column; else nothing changes; it is the register step of the runs |
| `Enrollment.Authenticate` | cli/server/auth.go:99-118 | reading the user and logging in is the atomic login step of the runs |
| `Enrollment.IdsAreUnique` | cli/server/register.go:168-177 | in every reachable state each id has at most one row |
| `Enrollment.ApplyOnRow` | cli/server/dbaccessor.go:397-446 | what each step does to each id's row, and when it does nothing |
| `Enrollment.StateCountsLogins` | cli/server/dbaccessor.go:407-440 | in every run the state is the number of successful logins since registration, or since the last revocation by name minus one |
| `Enrollment.LoginSucceedsIff` | cli/server/dbaccessor.go:397-446 | in every run a login succeeds if and only if the id is registered, the secret matches and the state is below a positive maximum |
| `Enrollment.SecretLogsIn` | cli/server/register.go:149-185 | in every run, after a registration, a login of its id succeeds if and only if it presents the secret given, or the random one where none was, and the state is below a positive maximum |
| `Enrollment.LoginsAreBounded` | cli/server/dbaccessor.go:407-440 | in every run the state stays between -1 and m, and at most m + r(m + 1) logins succeed after r revocations |
| `Enrollment.RevokedUserLogsIn` | cli/server/revoke.go:96-101 | the login after a revocation by name succeeds whatever the maximum |
| `Enrollment.LoginAfterRevocation` | cli/server/dbaccessor.go:397-446 | in every run a login of a user revoked before succeeds if and only if the secret matches and at most m logins have succeeded since the last revocation, or the maximum is not positive |
| `Enrollment.RowsPersist` | cli/server/dbaccessor.go:40-69 | a registered user stays registered with all columns but the state unchanged |
| `Enrollment.RegistrarAllowsType` | cli/server/register.go:211-231 | in every later state a user registered by a named registrar has a type that the registrar's roles contain |
| `Enrollment.UsersHaveGroups` | cli/server/register.go:127-147 | in every reachable state each client and peer names an existing group |
| `Enrollment.StepStaysReachable` | cli/server/register.go:97-125 | every step leads from reachable tables to reachable tables |
| `Cluster.ReadThenWriteIsLogin` | cli/server/auth.go:105-112 | a read at once followed by its write is the atomic login step, on the same tables |
| `Cluster.GoodKept` | cli/server/dbaccessor.go:276-292 | every interleaved step keeps ids unique and every pending snapshot backed by a row with its secret and maximum |
| `Cluster.StepIsEvent` | cli/server/dbaccessor.go:397-446 | each step is, for each user, one enabled event of a register with copies; a write that changes no row wins only where matching rows count |
| `Cluster.AccountKept` | cli/server/dbaccessor.go:397-446 | every step keeps the range of state and pending snapshots and the account of logins |
| `Cluster.InterleavedLoginsAreBounded` | cli/server/dbaccessor.go:397-446 | for every interleaving and both ways of counting the state stays between -1 and m, never exceeds the successful logins, and these are at most B(m) + r B(m+1), with B in binomial coefficients |
| `Cluster.ScheduleWins` | cli/server/dbaccessor.go:418-420 | the recursive schedule, from any state, wins the most that its handlers can and ends at the maximum |
| `Cluster.BoundIsAttained` | README.md:372-446 | for every number of handlers, both ways of counting, every m and r, a run of served requests and interleaved logins from empty tables reaches the bound exactly |
| `Cluster.MaximumHoldsIff` | README.md:61-63 | no run logs a user in more than m times if and only if there is no handler, or no revocation and either one handler or, where only changed rows count, m = 1 |
| `Cluster.TwoHandlersMaximumTwo` | README.md:372-446 | two handlers and a maximum of two: a run with five logins, four where only changed rows count |
| `Potential.WriteRaisesPotential` | cli/server/dbaccessor.go:418-420 | an absolute write raises the potential however far back it puts the state, for both ways of counting |
| `Potential.PaidKept` | cli/server/dbaccessor.go:397-446 | reads, failed and successful writes and revocations keep the logins paid for, whichever snapshots are counted |
| `Potential.WinsBounded` | cli/server/dbaccessor.go:407-440 | the bound that the account amounts to |
| `Bootstrap.RegisterGroup` | cli/server/bootstrap.go:98-115 | adds the group exactly when its name is new; a forest stays a forest |
| `Bootstrap.PopulateGroup` | cli/server/bootstrap.go:50-65 | adds only rows configured for this group and below, under their configured parents, until every name is there; a forest stays a forest |
| `Bootstrap.PopulateAffiliations` | cli/server/bootstrap.go:54-58 | the same for a list of names |
| `Bootstrap.PopulateChildren` | cli/server/bootstrap.go:59-64 | the same for a table of children, in any iteration order |
| `Bootstrap.PopulateGroupsTable` | cli/server/bootstrap.go:67-96 | the same for the whole configuration: unique names, each parent empty or an earlier row |
| `Bootstrap.WalksEnd` | cli/server/bootstrap.go:98-115 | in such a table there is a walk from every row to parents, each an earlier row, that ends at a row without a parent |
| `Bootstrap.PopulateUsersTable` | cli/server/bootstrap.go:39-48 | in any order the users found are those found before and the configured ones whose type needs no group or whose group exists, each with the configured password, or the random one where it is empty, and all other columns |
| `Bootstrap.Initialize` | cli/server/server.go:140-149 | groups before users; the result is reachable by the steps of a run, so all run properties hold from bootstrap on |
| `Certificates.CertDBAccessor.InsertCertificate` | cli/server/certdbaccessor.go:82-126 | adds the row under the certificate's own id, exactly when it parses and no row has its serial number and key identifier; it is the insert step of the runs |
| `Certificates.CertDBAccessor.GetCertificatesByID` | cli/server/certdbaccessor.go:128-142 | all rows of the id with their multiplicities, and no other row |
| `Certificates.CertDBAccessor.RevokeCertificatesByID` | cli/server/certdbaccessor.go:162-184 | returns the rows unrevoked before; each gets status revoked, the reason given and the time, its other columns and all other rows staying; it is the revoke step of the runs |
| `Certificates.LiveRowsAreReturned` | cli/server/certdbaccessor.go:173-176 | the rows returned are the id's unrevoked ones with their multiplicities, and nothing else |
| `Certificates.RevokedLeavesOthers` | cli/server/certdbaccessor.go:43-46 | other ids' rows are unchanged, and every id keeps its keys |
| `Certificates.RevocationIsIdempotent` | cli/server/certdbaccessor.go:43-46 | revoked rows keep reason and time, the id has no live row left, and a second revocation finds and changes nothing |
| `Certificates.RevokedForever` | cli/server/certdbaccessor.go:82-184 | in every run of inserts and revocations by id a revoked row never changes again |
| `Certificates.KeysAreUnique` | cli/server/certdbaccessor.go:82-126 | in every run a serial number and key identifier name at most one row |
| `Certificates.Handle` | cli/server/revoke.go:45-116 | when each reply is given, database errors included; serial and key identifier go before the name; by name the user's state becomes -1, as in the revoke step of the runs, and its live certificates get the reason and the time; an error at the second update leaves the user revoked and the certificates live; other failures change nothing |
| `Token.B64RoundTrip` | util/util.go:331-339 | decoding inverts encoding for all bytes |
| `Token.B64IsDotFree` | util/util.go:331-334 | encodings contain no dot |
| `Token.SymbolsInOrder` | util/util.go:331-334 | the symbols are the standard alphabet, written out, in order |
| `Token.B64DecodeAcceptsExactly` | util/util.go:336-339 | any bytes decode if and only if, newlines apart, they are symbols whose number is not one more than a multiple of four; encoding the result gives them back but for unused last bits |
| `Token.VerifyFramed` | util/util.go:243-303 | a framed certificate and signature split into two parts and are accepted if and only if the certificate's RSA or ECDSA key verifies the signature over the hash of encoded body, dot and encoded certificate |
| `Token.TokenRoundTrip` | util/util.go:166-303 | for every RSA or ECDSA certificate, matching key and body, a token is created if and only if the key parses and signs; it has two parts and verifies to the certificate |
| `Token.OtherKeysGiveNoToken` | util/util.go:178-192 | other key kinds give an empty token, which never verifies |
| `Token.VerifyAcceptsExactly` | util/util.go:243-303 | two dot-free parts are accepted if and only if the first decodes and parses to the certificate and the second decodes to a signature that rsaVerify, or unmarshal and ecVerify, accept over the hash of encoded body, dot and first part; other keys accept any |
| `Token.AcceptedTokenHasTwoParts` | util/util.go:280-287 | whatever is accepted has exactly two dot-free parts |
| `Token.SignedStringInjective` | util/util.go:200-202 | the signed string determines body and certificate |
| `Random.RandomString` | util/util.go:62-79 | ends for every stream with enough letters; read backwards, the result is the first n letters; chunks and draws used are counted exactly, ten to a draw |
| `Random.LettersGrow` | util/util.go:62-79 | looking at more chunks never changes the letters found so far |
| `Random.LettersInOrder` | util/util.go:50-50 | letter number i is the i-th of the 52 written out, so numbers and letters correspond one to one |
| `Random.ChunkIsSixBits` | util/util.go:51-77 | chunk j is six bits of draw j / 10, from bit 6 (j mod 10) on |
| `Random.GenNumberDraws` | lib/tcert/util.go:133-146 | results have exactly the length asked for; which draws give which number, two for the lowest ninth and one for the rest |
| `Random.GenNumberLength` | lib/tcert/util.go:133-146 | in decimal the results have exactly the length asked for, and every number of that length is a result |

## Left out

- HTTP, TLS, request parsing and response writing: plumbing around the operations modelled.
- The clients and the command line: network calls, files and arguments.
- AES, HMAC, curve arithmetic, RSA, ECDSA, X.509, PEM and ASN.1: foreign code, present as parameters with the laws stated. A certificate is modelled as the template it is made from.
- Revocation by serial number and OCSP: code of the CFSSL library; the revoke handler takes an arbitrary function in its place.
- LDAP connections, opening databases and SQL errors: every statement succeeds here, except the two updates of a revocation by name.
- JSON encoding of attributes and the parsing of configuration files: attributes are kept decoded, the configuration is a parsed tree.
- The gap between inserting a user and setting its maximum: registration is one step, in the cluster too.
- User updates and deletions, group deletions and GetField: no handler modelled here calls them.
- The response id, time stamp and constant fields of a batch, the UUID version bits, and the base64 form of the HMAC key: drawn or constant values that nothing else depends on.
- The CA label column of certificates: it is stored and never used.
- MySQL's case-insensitive comparison of ids and the width of the state column: ids are compared exactly, states are unbounded.
- Writes of PKCS7Padding into spare capacity of the caller's slice: byte strings are values, except in the decryption buffer.
- Random.RandomString: does not model a negative length, on which the original panics.
- Cluster.BoundIsAttained: takes a user that the configuration registers, with no named registrar; the upper bound is for all users.
- Cluster.InterleavedLoginsAreBounded: says nothing for a maximum of zero or less, which means no limit.
