# polyauth, modelled and verified in Dafny

polyauth shields a user's main password behind secondary ones, and mounts the user's directories when a
session opens. This project models its five connected parts and proves what each promises:

- **the frame** that carries a password from the PAM module to the session service (`Words`, `Cipher`, `Frame`);
- **the keychain** of main, intermediate and secondary passwords (`Keychain`, `Secrecy`);
- **mount configurations**, their digest, the all-or-nothing mounting and the file of authorized digests with
  its readers/writer protocol (`Mounts`, `Digest`, `MountTable`, `AuthFile`, `AuthProtocol`);
- **the configuration file** with its three views (`Storage`);
- **the session service** and whole runs of it (`Sessions`, `SessionSteps`, `SessionRuns`, `TokenLedger`, `Tokens`, `Exchange`,
  `MountRuns`), and the way from configuring a mount to logging in with it (`Chain`).

`dafny verify dfyconfig.toml` checks everything.

## How the model is built

- A Rust string or byte vector is the sequence of its octets (`Str`). So a password converts to octets and
  back without loss, which is what `is_valid_password` checks, and no call can fail that check.
- What updates fields in place is a class (`UserAuthData`, `Hasher`, `Table`, `AuthService`, `ConfigFile`,
  `SessionService`); its methods are proved to act as functions of the old state, and the promises are proved
  of those functions over all histories and runs. Expressions stay functions, loops stay methods with loops.
- The frame codec works on real octets. RSA and AES-GCM are an arbitrary suite of functions that meets
  `Cipher.Lawful`; `Cipher.PlainSuiteIsLawful` shows that such suites exist. The keychain uses symbolic terms
  instead: a hash verifies exactly its password. Real bcrypt looks only at a bounded prefix of a password, so
  for longer passwords this is a hypothesis.
- `HashMap` iteration is an arbitrary duplicate-free listing of the keys, chosen anew for every pass.
- The hash of a token is an arbitrary function to 64 bits, so every statement about tokens holds whatever collides.
  The digest of a configuration is an arbitrary function to 64 bits too, written in hexadecimal. Two statements say
  when a digest differs, `Digest.OrderIndependentExactly` and `Chain.AuthorizingOnceSufficesExactly`; they ask
  for `NoSwapCollides`: on the one configuration in question, no collision between two preimages
  that differ in the order of the first two premounts. 64 bits suffice for that
  on every separable configuration (`Digest.OrderBitTellsSwapped`).
- What is said of preimages that differ is for separable configurations: no directory, device or type
  holds the octet that ends it (1, 2 and 3), flags and home strings hold no zero octet, and there are
  at most 256 premounts with at most 256 flags each.
- Random values, clocks, the user database, the kernel's answers and the outcome of loading the RSA key are
  inputs of each call.
- `usize` and `u64` wrap where the code wraps: in the guard of `decrypt`, in the header shifts and in the
  session count. Additions wrap as in a release build. A slice out of bounds is the outcome `Panicked`.
- A service call runs to its end before the next one starts, because the methods take `&mut self`. The
  authorization file is shared beyond that, so its protocol is also modelled step by step.

## What turned out false, and when it holds

- **Authorizing a configuration once is not enough** when it has two or more premounts: the digest follows the
  iteration order of a `HashMap`, which another process chooses anew. With at most one premount once is enough, for
  every configuration and digest (`Digest.OneDigest`, `Chain.AuthorizeThenLogin`). For a separable configuration it is
  enough only then: if the digest does not collide on that configuration (`Digest.OrderIndependentExactly`,
  `Chain.AuthorizingOnceSufficesExactly`), and if it has to be enough whatever the digest computes, without a word
  about collisions (`Digest.OrderIndependentForEveryDigest`). Premounts whose strings hold separators may have one
  preimage in both orders, as `Digest.SwappedTwinsCollide` shows.
- **The service does not receive every password unchanged**: zero octets are filtered out with the padding.
  `Frame.PasswordSurvivesExactly`: it does exactly when the password holds none.
- **The guard of `decrypt` does not protect every frame**: `Frame.PanicsExactly` names the announced lengths for
  which the sum wraps and a slice is out of bounds, and `Frame.ShortestPanic` gives eight octets that do it. Every
  other frame is sliced in bounds.
- **Secondary passwords are not always independent of the main password**: a secret that equals the main password, or
  that a coinciding secondary wraps, can be learnt from it. `Secrecy.SecretsLeakExactly` gives the exact set.
- **The digest preimage does not tell all configurations apart**: the home strings run together, and strings
  that contain a separator octet collide (`Digest.SeparatorsCollide`). Otherwise it does
  (`Digest.PreimageIdentifies`).
- **A stored keychain without a main password reads as absent**, also when it has secondaries
  (`Storage.AuthRoundTrip`).
- **A store whose change of owner is refused reports an error after writing** (`Storage.FailedStoreExactly`).
- The comment in `decrypt` speaks of a 256-octet RSA block and a 510-octet remainder; the code takes the length from
  the header, and the block that `encrypt` builds has 526 octets. The model follows the code.

## Model

| member | source | states |
|---|---|---|
| Words.WriteLength | src/pam/security.rs:151-157 | the shift-and-truncate loop writes the eight base-256 digits of the length, lowest first |
| Words.ReadLength | src/pam/security.rs:184-189 | the shift-and-OR loop, on 64-bit words, yields the weighted sum of the octets |
| Words.HeaderRoundTrip | src/pam/security.rs:151-189 | writing and reading the header undo each other, for every u64 and for every eight octets |
| Frame.Combine | src/pam/security.rs:65-74 | data octets at even positions, the token cyclically extended at odd ones |
| Frame.Split | src/pam/security.rs:76-90 | separates the octets at odd positions from those at even ones |
| Frame.InterleaveInverse | src/pam/security.rs:65-90 | split undoes combine up to the cyclic extension of the token, and combine rebuilds every even-length input from its split |
| Frame.NonZeroOfPadded | src/pam/security.rs:51-63 | padding a short string to any length and filtering zeros afterwards is filtering alone |
| Frame.PadToAt | src/pam/security.rs:51-63 | padding leaves the octets of the password in place and puts zeros behind them |
| Frame.NonZeroAppend | src/pam/security.rs:233-239 | the final filter drops zeros one by one, wherever they are, and keeps the rest in order |
| Frame.Encrypt | src/pam/security.rs:113-170 | with its loops, builds header, nonce, RSA block and AEAD block, or the error of the first check that fails |
| Frame.FrameBlocks | src/pam/security.rs:132-169 | where a built frame holds length, nonce, encrypted key and sealed message, and which octet of password or token stands at each position of the latter |
| Frame.EncryptFailsExactly | src/pam/security.rs:120-161 | which condition leads to which error |
| Frame.Decrypt | src/pam/security.rs:172-242 | with wrapping sums, reads the blocks at the announced positions; every error in the order of the code |
| Frame.DecryptExact | src/pam/security.rs:180-241 | which condition leads to which error, and which octets of the opened block a success gives as token and password |
| Frame.ShortestPanic | src/pam/security.rs:173-205 | a concrete frame of eight octets passes the guard and is sliced out of bounds |
| Frame.PanicsExactly | src/pam/security.rs:189-205 | the frames on which decrypt slices out of bounds: the guard's sum wraps and lets the frame through, and no others |
| Frame.DecryptedShape | src/pam/security.rs:222-241 | whatever decrypts yields a 255-octet token and at most 255 nonzero octets of password |
| Frame.FrameRoundTrip | src/pam/security.rs:113-242 | every frame built decrypts under the matching key to its token and the password without zero octets |
| Frame.PasswordSurvivesExactly | src/pam/security.rs:233-239 | the password itself arrives exactly when it holds no zero octet |
| Cipher.PlainSuiteIsLawful | src/pam/security.rs:137-147 | the laws assumed of the cipher libraries can be met |
| Keychain.UserAuthData.SetMain | src/user.rs:376-421 | the new keychain and the result, for the first and for every later main password |
| Keychain.UserAuthData.AddSecondaryPassword | src/user.rs:292-312 | accepts what `main` accepts, then appends one entry wrapping the value given |
| Keychain.UserAuthData.MainByAuth | src/user.rs:332-359 | the search loop with skipped errors answers as the first secondary that leads to a main password |
| Keychain.PlainExact | src/user.rs:230-268 | a main record opens with the main password and with the intermediate key and with nothing else |
| Keychain.PlainOfAnyRecord | src/user.rs:230-268 | also a record that was tampered with opens only to the hashed main password, and with which error it fails |
| Keychain.IntermediateOfAnyRecord | src/auth.rs:86-109 | a secondary answers exactly its hashed password with what its ciphertext holds, and with which error it fails |
| Keychain.LoginOnAnyData | src/user.rs:332-359 | on any stored data login hands over the hashed main password or fails, and exactly when |
| Keychain.RecordsWritten | src/user.rs:203-225 | an accepted change writes records made with the drawn salts and nonces, under the lasting key salt, with the name and date given |
| Keychain.MainExact | src/user.rs:361-374 | after every history `main` answers the current main password to itself and to the intermediate key alone |
| Keychain.HistoryRepresents | src/user.rs:197-228 | after every history the hashed and encrypted records stand for the account they should |
| Keychain.LoginExact | src/user.rs:332-359 | soundness and completeness of login after every history, with the exact error otherwise |
| Keychain.ChangesExact | src/user.rs:292-421 | which changes are accepted, with which error the others are refused, and that those change nothing |
| Keychain.WrapsInvariant | src/user.rs:302-309 | every enrolment wraps the intermediate key or a main password that was once current |
| Keychain.IntermediateKeyFixed | src/user.rs:389-404 | no later call changes which intermediate key verifies, its salt, or an existing enrolment |
| Keychain.RotationPreservesEnrolments | src/user.rs:389-404 | enrolments with the intermediate key survive every rotation; one with a main password works exactly while that value is the main password or the key |
| Keychain.AuthenticateExact | src/lib.rs:474-540 | a user without stored data or without a main password is unknown; otherwise the main password is handed over exactly when the empty or the typed password unlocks |
| Secrecy.SecretsLeakExactly | README.md:36-37 | for any disclosed strings, the secrets that can be learnt are exactly those they lead to, a secondary leading to what it wraps and the intermediate key to the main password |
| Secrecy.MainDisclosesNothing | README.md:36-37 | from the records and the main password neither the intermediate key nor a secondary can be derived, unless the main password is one of them; then exactly those it leads to |
| Secrecy.IntermediateKeyDisclosesNoSecondary | README.md:36-37 | with the intermediate key too, no secondary can be derived, unless one of the two is one; then exactly those they lead to |
| Secrecy.IntermediateKeyDisclosesEveryMain | README.md:31-34 | a disclosed intermediate key opens the main password, also every later one |
| Mounts.LastPremountWins | src/mount.rs:91-100 | after any additions each directory has what was set for it last |
| Mounts.OtherMountsStay | src/mount.rs:91-114 | additions touch no other directory and commute with replacing the home mount |
| Mounts.ConcatAppend | src/mount.rs:121 | the home flags are run together whole and in order |
| Mounts.JoinAppend | src/pam/mount.rs:190 | options are joined with one comma between neighbours and nothing else |
| Mounts.PreimageGrows | src/mount.rs:119-131 | the preimage starts with home device, type and flags; each further premount adds its position, a zero and its three strings, ended by 1, 2 and 3, and its flags |
| Mounts.FlagOctetsGrow | src/mount.rs:132-135 | each further flag adds its position and itself |
| Mounts.HomeFieldsMatter | src/mount.rs:119-120 | another home device or another home type gives another preimage, whatever else is configured |
| Prelude.HexMeaning | src/mount.rs:138-140 | the digest is a numeral of digits 0-9 and A-F, without leading zero, that stands for the 64 bits |
| Mounts.Hash | src/mount.rs:116-141 | the nested loops feed exactly the preimage to the hasher, for every iteration order, and the 64 bits of the result are written in hexadecimal |
| Digest.PreimageDecodes | src/mount.rs:116-136 | a decoder recovers the ordered premounts, and home device, type and flags run together, from the preimage |
| Digest.PreimageIdentifies | src/mount.rs:116-136 | equal preimages exactly for equal ordered premounts and equal home device, type and flags run together |
| Digest.ConfigurationsIdentified | src/mount.rs:116-136 | two configurations met in two orders have one preimage exactly when premounts, order and joined home strings are the same |
| Digest.SeparatorsCollide | src/mount.rs:123-131 | two different configurations with one preimage, when a directory holds a separator octet |
| Digest.PreimageOrder | src/mount.rs:123 | two passes over one configuration agree exactly when they use the same order |
| Digest.SwappedTwinsCollide | src/mount.rs:123-131 | two premounts with one preimage in both orders, when their strings hold separator octets |
| Digest.OrderIndependentExactly | src/mount.rs:116-141 | the digest is independent of the iteration order exactly with at most one premount, if it does not collide on this configuration |
| Digest.OrderBitTellsSwapped | src/mount.rs:138 | 64 bits are enough for a digest that does not collide there |
| Digest.OrderIndependentForEveryDigest | src/mount.rs:116-141 | whatever 64-bit digest is computed, its independence of the order is assured exactly with at most one premount |
| MountTable.Table.MountAll | src/pam/mount.rs:167-244 | makes all requested mounts or, at any failure, none, and the depths change by exactly those |
| MountTable.Table.Drop | src/pam/mount.rs:204-209 | dropping a list of mounts takes each of its paths off once |
| MountTable.MountedExactly | src/pam/mount.rs:167-244 | success exactly when every attempt succeeds; it holds the tmpfs at `/tmp/xdg/UID` with its options first, each premount in the order met and the home mount, each with its own source, type and comma-joined options |
| Prelude.DecimalMeaning | src/pam/mount.rs:114-127 | the user and group numbers in the runtime path and options are decimal numerals for those numbers |
| AuthFile.AuthService.ReadFileOrCreateDefault | src/pam/disk.rs:32-88 | returns the contents, creating the default ones when there are none |
| AuthFile.AuthService.Authorize | src/pam/mount.rs:338-362 | read, add, write back; an unreadable file is refused and stays |
| AuthFile.AuthService.Check | src/pam/mount.rs:364-379 | answers from the file, no when it cannot be read |
| AuthFile.GrantsExact | src/pam/mount.rs:269-274 | granted means listed for that user in a file that parses |
| AuthFile.AfterAuthorizeExact | src/pam/mount.rs:262-267 | accepted exactly when the file is missing or parses; the hash is then appended to the list of that user and all other lists stay |
| AuthFile.AuthorizeExact | src/pam/mount.rs:262-274 | authorizing grants one pair and changes no other answer; reading changes none |
| AuthProtocol.AlwaysInv | src/pam/mount.rs:286-379 | the invariant of the lock, the file and every step, in every interleaving |
| AuthProtocol.ChecksAreCurrent | src/pam/mount.rs:370-378 | every check answers as of a moment at which it held the lock |
| AuthProtocol.NoUpdateIsLost | src/pam/mount.rs:341-357 | every authorization that returned was accepted, is written once, and is granted by the file |
| AuthProtocol.AuthorizedIsSeen | src/pam/mount.rs:338-379 | a check that locks after an authorization was released sees it |
| AuthProtocol.RacingReadersRefuse | src/pam/disk.rs:42-85 | readers that race to create the missing file all answer no, also when an authorization follows |
| AuthProtocol.NoDeadlock | src/pam/mount.rs:341-342 | while a request is unfinished some unfinished worker can take a step |
| AuthProtocol.ArrivesExactly | src/pam/mount.rs:338-370 | any request may arrive at any time, and then waits |
| AuthProtocol.MovesExactly | src/pam/mount.rs:341-370 | who may take the lock: any readers, or one writer alone; every other step moves its request nearer to the answer and touches no other worker |
| AuthProtocol.EveryoneCanFinish | src/pam/mount.rs:338-379 | from wherever a run stands all requests can be answered, in a bounded number of steps |
| Storage.ConfigFile.StoreUserAuthData | src/storage.rs:268-314 | with its loop, acts as `StoreAuth`, of which `StoreAuthExact` says when it succeeds and what it writes |
| Storage.ConfigFile.LoadUserAuthData | src/storage.rs:214-256 | with its loop, rebuilds the keychain entry by entry; the first bad entry decides |
| Storage.ConfigFile.StoreUserMountpoints | src/storage.rs:344-377 | acts as `StoreMounts`, of which `StoreMountsExact` says when it succeeds and what it writes |
| Storage.ConfigFile.LoadUserMountpoints | src/storage.rs:316-342 | rebuilds the map by inserting the listed entries one by one |
| Storage.ConfigFile.StoreUserSessionCommand | src/storage.rs:202-212 | acts as `StoreCommand`, of which `StoreCommandExact` says when it succeeds and what it writes |
| Storage.ConfigFile.LoadUserSessionCommand | src/storage.rs:195-200 | acts as `LoadCommand`, of which `LoadsExact` says the answer |
| Storage.StoreAuthExact | src/storage.rs:268-314 | succeeds exactly when the file is missing or parses, every record and the result encode and the owner is accepted; writes all records in order; every other error |
| Storage.StoreMountsExact | src/storage.rs:344-377 | the same for mount points: home and every premount, each field under its own name, or none |
| Storage.StoreCommandExact | src/storage.rs:202-212 | the same for the session command |
| Storage.LoadAuthExact | src/storage.rs:214-256 | what each load of a keychain answers: absent, read in order, or the first flaw as the error |
| Storage.LoadsExact | src/storage.rs:195-342 | what the other two loads answer; of several mounts with one directory the last counts |
| Storage.ListCodecIsLawful | src/storage.rs:268-314 | the laws assumed of the encoding libraries can be met, with any finite number of values encoded |
| Storage.AuthRoundTrip | src/storage.rs:214-314 | a stored keychain reloads unchanged exactly when it has a main password |
| Storage.LoginSurvivesStorage | src/storage.rs:214-314 | login answers the same for every input before and after |
| Storage.MountsRoundTrip | src/storage.rs:316-377 | a stored configuration reloads equal for every enumeration order |
| Storage.CommandRoundTrip | src/storage.rs:195-212 | a stored session command is read back |
| Storage.StoresAreIndependent | src/storage.rs:195-377 | a store, successful or not, leaves the other two loads unchanged |
| Storage.FailedStoreExactly | src/storage.rs:169-193 | which failure any store reports exactly when, and that it changes nothing, except when only the change of owner failed |
| Storage.StoresCommute | src/storage.rs:202-377 | two stores of different kinds commute |
| Sessions.SessionService.InitiateSession | src/pam/session.rs:136-177 | issues a prelude and stores its token under its hash, or changes nothing but the key's status |
| Sessions.SessionService.AdmitFrame | src/pam/session.rs:199-229 | decrypts, takes the token out even when it does not match, and refuses with the code's errors |
| Sessions.SessionService.OpenUserSession | src/pam/session.rs:179-296 | the whole state and reply of an open: count up, or admit, load, gate, mount and enter |
| Sessions.SessionService.CloseUserSession | src/pam/session.rs:298-330 | count down; the last close removes the entry and unmounts |
| SessionSteps.InitiateExact | src/pam/session.rs:136-177 | a prelude is issued exactly when there is a key that can be written and the prelude serializes, whatever is outstanding; the token is stored under its hash |
| SessionSteps.OpenWithoutFrame | src/pam/session.rs:188-197 | an unknown user is refused; a user with a session gets another one whatever the frame holds |
| SessionSteps.FrameReply | src/pam/session.rs:199-295 | for a known user without a session, which condition leads to which code, success included |
| SessionSteps.FrameEffect | src/pam/session.rs:199-285 | what such a call does to key, tokens, sessions, mounts and the authorization file |
| SessionSteps.CloseExact | src/pam/session.rs:298-330 | which condition leads to which code, and what the last and any other close changes |
| SessionSteps.AuthorizationExact | src/pam/mount.rs:338-379 | what authorizing and checking answer, and that only the named pair is granted |
| SessionRuns.SessionsCount | src/pam/session.rs:192-197 | in every run the entry exists exactly while opens exceed closes, and counts the difference |
| SessionRuns.FailedCallsChangeNoSession | src/pam/session.rs:188-277 | calls that fail leave sessions and mounts alone |
| Tokens.StepIsEvent | src/pam/session.rs:160-229 | each call acts on the tokens as issuing, taking or nothing; only a live token creates a session |
| Tokens.EventMeaning | src/pam/session.rs:160-285 | the events of a run are its issues, its taken tokens and its created sessions |
| Tokens.TokensConserved | src/pam/session.rs:160-229 | live tokens and sessions created never outnumber tokens issued, for any hash |
| Tokens.CreationsMatchIssues | src/pam/session.rs:160-229 | sessions created are matched one to one to earlier issues of the same token |
| Tokens.NoReplay | src/pam/session.rs:215-229 | a token once presented creates no session until it is issued again |
| Exchange.KeyIsFixed | src/pam/session.rs:109-125 | a key that is ready never changes |
| Exchange.HonestExchange | src/lib.rs:120-148 | a prelude's frame is accepted after any interleaving that leaves its token alone, and the reply depends on user, configuration and kernel alone |
| Exchange.ClientEncrypts | src/lib.rs:135-141 | the client gives up only for a password over 255 octets or a refusal by the RSA library |
| MountRuns.MountsConserved | src/pam/session.rs:265-317 | in every run each path is covered as often as the live sessions' mounts cover it |
| MountRuns.GrantsLast | src/pam/mount.rs:262-274 | an authorization, once granted, is granted forever |
| MountRuns.CreationNeedsApproval | src/pam/session.rs:247-263 | no session is created with a configuration whose digest is not listed for the user in the file, in whatever state the file is |
| MountRuns.SessionsAreAuthorized | src/pam/session.rs:247-285 | a live session, from the open that created it on, holds exactly the mounts of its configuration, with source, type and options; that digest was on the list of the user when it was created and is ever after |
| Chain.AuthorizeThenLogin | src/pam/session.rs:231-263 | store, load, authorize, load elsewhere in any order: the gate accepts, with at most one premount |
| Chain.AuthorizingOnceSufficesExactly | src/pam/session.rs:247-263 | authorizing once suffices for every later login exactly with at most one premount, if the digest does not collide on the configuration |
| Chain.FirstLogin | src/lib.rs:120-148 | authorize, initiate, encrypt, open, with any calls between: the session opens |

## Left out

- PreimageIdentifies: stated for at most 256 premounts and at most 256 flags each, where an index has a single nonzero octet.
- SessionsCount: stated for runs of fewer than 2^64 calls, since the count is a 64-bit `usize`.
- MountsConserved: unmounting succeeds and mount targets are not nested in one another; paths are compared as strings.
- NoUpdateIsLost: reading and writing the authorization file succeed; a partial write is not modelled.
- Hashing errors of bcrypt and encryption errors of AES-GCM on well-formed inputs, which arise only from the libraries.
- `MainPassword::check`, which compares a freshly salted hash as a string.
- A failing or panicking job that loads the RSA key: only "no key, no change" is kept of it.
- Failures of `fs::write` and of creating the parent directory of a configuration file; `remove_user_data`.
- `mount_xdg` directory creation, permissions and change of owner: they are part of the kernel's answer or have no effect on the result.
- `is_user_polyauth_enabled`, a read-only query on the loaded keychain.
- The client's own replies to an empty or unreadable prelude.
- D-Bus, Tokio, PAM handles, environment variables, logging, the one-second delay of `check`, the command-line tool.
- The setters of mount parameters and of the authorization map update values owned by one caller; they are functions on values.
