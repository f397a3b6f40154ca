# onlineVR-toolbox: client/server protocol model

A Dafny model of the core of the onlineVR toolbox. It has two sides.

The Unity client (`ConnectionHandler.cs`, `ExperimentHandler.cs`):
- A handshake GET. On a failed request the client retries at most three times. A reply `"<id> : <key>"` gives it a subject number and an AES key.
- Two mock experiment blocks. Each writes a local data file named `onlineVR_<subject>_<yyyy-MM-dd_HH-mm>_B<block>`.
- One upload per file. The upload is a PUT whose body is the file name's UTF-8 bytes, followed by a fresh 16-byte IV, followed by the AES-CBC ciphertext of the file. A failed PUT is retried with no limit.

The Bottle server (`bottle_app.py`):
- `get_next_id` keeps a counter in `./mysite/id.txt`.
- `welcome` answers the GET with the id zero-padded to six digits and the fixed key.
- `save_data` takes the first 35 bytes of a PUT body as the file name and stores the rest under `./mysite/files/<name>.bytes`.

Modules, one per file:

| module | contents |
|---|---|
| `Base` | Bytes, `Option`, `Result`, and the `UnityWebRequest.Result` classification. |
| `Text` | .NET `Trim` and Python `strip` whitespace; C# `Split(char)`; decimal printing and parsing (`int.ToString`, `str`, `int`, `f'{n:06d}'`). |
| `Utf8` | UTF-8 encoding (`Encoding.UTF8.GetBytes`) and strict decoding (`bytes.decode('UTF-8')`). |
| `Crypto` | The client's `Encrypt`. AES is a `Cipher` function parameter. |
| `Handshake` | The `testConnection` coroutine chain as a state machine over the handler's fields. |
| `Upload` | The `Upload` coroutine chain over the circumstances of successive attempts. |
| `Experiment` | File names and time stamps, `Path.Combine`, and `ExperimentSequence`. |
| `Server` | The two Bottle handlers over a value that models the server's disk. |
| `Protocol` | Client and server together: the handshake reply parses back, and an upload is stored and decrypts. |

The model follows the code wherever the code's comments or the project's description say something else:
- `Split(':')` cuts at every colon, not only the first. The key is the text between the first and the second colon (`Handshake.ParseKeyIsSecondPiece`).
- A reply without a colon makes `Split(':')[1]` throw. The identity has already been stored by then, and `connectionOK` stays false (`Handshake.MalformedReplyStopsHandshake`).
- Only `ConnectionError` and `ProtocolError` count as failures. A `DataProcessingError` takes the success branch in both coroutines.
- The handshake sends at most four GETs: the first one plus `maxRetry` = 3 retries.
- `ExperimentSequence` waits only for the first `testConnection` instance. A retry that succeeds comes too late for it (`Experiment.RetrySuccessComesTooLate`).
- The server's comment speaks of "the first 41 bytes". The code uses `filename_length` = 35, and so does the model.
- For ids 1000000..9999999 the subject number has seven digits. The name then has 36 characters, and the server's fixed 35-byte cut shifts the frame: the name's last character is stored in front of the IV (`Protocol.SeventhDigitShiftsFrame`). Longer ids shift the frame further: every name byte past the 35th is stored in front of the IV (`Server.SaveShifted`).

## Model

| member | source | states |
|---|---|---|
| `Text.TrimWith` | unityTemplate/Assets/ConnectionHandler.cs:112-115 | The trimmed text is an unpadded middle slice of the input; only padding characters lie before and after it. |
| `Text.TrimOfPadded` | unityTemplate/Assets/ConnectionHandler.cs:112-115 | Trimming removes exactly the padding added around an unpadded string, no more and no less. |
| `Text.Split` | unityTemplate/Assets/ConnectionHandler.cs:112 | The pieces contain no separator, there is at least one piece, and joining them with the separator gives the input back. |
| `Text.SplitJoin` | unityTemplate/Assets/ConnectionHandler.cs:112 | Splitting inverts joining for separator-free pieces, so the pieces of a split are unique. |
| `Text.SplitHeads` | unityTemplate/Assets/ConnectionHandler.cs:112-115 | Piece 0 is the text before the first separator. Piece 1 exists iff the separator occurs, and it is the text between the first and the second separator. |
| `Text.BeforeAfter` | unityTemplate/Assets/ConnectionHandler.cs:112-115 | A text with the separator is the text before it, the separator, and the text after it. Without a separator, the text before it is the whole text. |
| `Text.ParseInt` | 2_webAppFiles/bottle_app.py:49 | Python `int` accepts exactly an optional sign followed by at least one digit. Only a text starting with '-' reads as a negative number. |
| `Text.IntToDecimal` | 2_webAppFiles/bottle_app.py:54 | `str` of a natural number is a non-empty run of digits. A negative number is '-' followed by at least one digit. |
| `Text.FormatZeroPadded` | 2_webAppFiles/bottle_app.py:72 | A `0<w>d` spelling has at least w characters and at least one. It is all digits for n >= 0, and '-' followed by digits for n < 0. |
| `Text.IntRoundTrip` | 2_webAppFiles/bottle_app.py:49-54 | Python `int` reads back what `str` wrote, for every integer. |
| `Text.DecimalLength` | 2_webAppFiles/bottle_app.py:72 | A number has at most k digits iff it is below 10^k. |
| `Text.ZeroPaddedToken` | 2_webAppFiles/bottle_app.py:72 | A `06d` spelling is non-empty, has no colon, and has no whitespace of either platform at its ends. |
| `Text.ZeroPaddedWidth` | 2_webAppFiles/bottle_app.py:72 | Padding to width w is exact for 0 <= n < 10^w. A larger n keeps all its digits and exceeds w. |
| `Text.ZeroPaddedRoundTrip` | 2_webAppFiles/bottle_app.py:72 | Python `int` reads a zero-padded spelling back as the same number, sign and leading zeros included. |
| `Text.ZeroPaddedInjective` | 2_webAppFiles/bottle_app.py:72 | Distinct ids get distinct zero-padded spellings. |
| `Text.IntToDecimalInjective` | 2_webAppFiles/bottle_app.py:54 | Distinct counters are written as distinct texts. |
| `Utf8.Encode` | unityTemplate/Assets/ConnectionHandler.cs:155 | A text of n characters encodes to between n and 4n bytes. |
| `Utf8.Decode` | 2_webAppFiles/bottle_app.py:88 | Accepted bytes decode to a text of n characters, with n <= bytes <= 4n. |
| `Utf8.EncodeChar` | unityTemplate/Assets/ConnectionHandler.cs:155 | Each character takes 1 to 4 bytes, and exactly 1 byte iff it is below U+0080. |
| `Utf8.DecodeFirstOfEncoding` | 2_webAppFiles/bottle_app.py:88 | The strict decoder reads back the character an encoding came from, whatever bytes follow. |
| `Utf8.DecodeFirstIsEncoding` | 2_webAppFiles/bottle_app.py:88 | Whatever the strict decoder accepts at the head is the encoding of the character it returns. |
| `Utf8.EncodeAppend` | unityTemplate/Assets/ConnectionHandler.cs:155 | The encoding of a concatenation is the concatenation of the encodings. |
| `Utf8.DecodeEncode` | 2_webAppFiles/bottle_app.py:88 | Decoding inverts encoding: the server decodes the client's name bytes to the client's name. |
| `Utf8.EncodeDecode` | 2_webAppFiles/bottle_app.py:88 | Decoding is strict: bytes it accepts are the encoding of its result, so no other bytes decode to the same name. |
| `Utf8.EncodeAscii` | unityTemplate/Assets/ConnectionHandler.cs:155 | ASCII text encodes to one byte per character, and each byte is the character's code. |
| `Crypto.Encrypt` | unityTemplate/Assets/ConnectionHandler.cs:197-263 | Succeeds iff a key is set and its UTF-8 length is 16, 24 or 32 bytes; the error says which of the two failed. The output is the 16-byte IV followed by the ciphertext. |
| `Crypto.OpenEncrypted` | unityTemplate/Assets/ConnectionHandler.cs:244-249 | A receiver that cuts off the first 16 bytes recovers exactly the IV and the ciphertext. |
| `Crypto.DecryptEncrypted` | unityTemplate/Assets/ConnectionHandler.cs:221-249 | With the key and the cipher's inverse, the plaintext comes back from the blob, because the IV travels with it. |
| `Crypto.FreshIvFreshOutput` | unityTemplate/Assets/ConnectionHandler.cs:222 | Encryptions under different IVs never give the same output, whatever the plaintexts. |
| `Handshake.ConnectionCheck` | unityTemplate/Assets/ConnectionHandler.cs:286-292 | In a reachable handler state, a positive check means the identity and the key are both stored and no GET is pending. |
| `Handshake.GetSubjectNumber` | unityTemplate/Assets/ConnectionHandler.cs:129-131 | In a reachable state that passes the connection check, there is a subject number to return. |
| `Handshake.ParseIdentity` | unityTemplate/Assets/ConnectionHandler.cs:112 | The identity has no colon and no .NET whitespace at its ends, and is no longer than the reply. |
| `Handshake.ParseKey` | unityTemplate/Assets/ConnectionHandler.cs:115 | There is a key iff the reply has a colon. The key then has no colon and no .NET whitespace at its ends. |
| `Handshake.ParseIdentityIsFirstPiece` | unityTemplate/Assets/ConnectionHandler.cs:112 | The stored identity is piece 0 of `Split(':')`, trimmed; without a colon it is the whole reply, trimmed. |
| `Handshake.ParseKeyIsSecondPiece` | unityTemplate/Assets/ConnectionHandler.cs:115 | The key is piece 1 of `Split(':')`, trimmed. There is no key (the lookup throws) when the split has fewer than two pieces. |
| `Handshake.IdentityOfSpacedPair` | unityTemplate/Assets/ConnectionHandler.cs:112 | The identity read from "<id> : <key>" is the id, for a colon-free, unpadded id. |
| `Handshake.KeyOfSpacedPair` | unityTemplate/Assets/ConnectionHandler.cs:115 | The key read from "<id> : <key>" is the key, when neither has a colon and the key is unpadded. |
| `Handshake.Step` | unityTemplate/Assets/ConnectionHandler.cs:61-126 | The field invariant is kept. A new GET starts iff the request failed within the budget, and the retry count grows by exactly one then. The client gives up iff a request fails with the budget spent. A failed request keeps the identity and key. Any other reply stores the identity. The connection is up iff the reply has a colon, and then the key is the parsed key. |
| `Handshake.Run` | unityTemplate/Assets/ConnectionHandler.cs:82-100 | The chain stops early only with no GET pending. GETs answered plus the one pending equal one plus the retries. Every answered reply before the last was a failure. |
| `Handshake.AtMostFourRequests` | unityTemplate/Assets/ConnectionHandler.cs:43 | Whatever the server does, the retry count stays <= 3 and at most 4 GETs are sent. |
| `Handshake.FailuresExhaustBudget` | unityTemplate/Assets/ConnectionHandler.cs:85-99 | From any pending state, failures up to the remaining budget plus one end in the give-up state: no GET pending, not connected, and no later reply consumed. |
| `Handshake.FourFailuresGiveUp` | unityTemplate/Assets/ConnectionHandler.cs:85-99 | Four failures from the start give up after exactly four GETs. |
| `Handshake.RunAfterFailures` | unityTemplate/Assets/ConnectionHandler.cs:85-93 | n failures within the budget only count retries: the chain then continues from the state with n more retries. |
| `Handshake.SucceedsAfterFailures` | unityTemplate/Assets/ConnectionHandler.cs:82-125 | n failures within the budget and then a reply with a colon connect the client, with that reply's identity and key, after exactly n + 1 GETs. |
| `Handshake.ThreeFailuresThenSuccess` | unityTemplate/Assets/ConnectionHandler.cs:82-125 | Three failures and then a well-formed reply connect the client on the fourth GET. |
| `Handshake.MalformedReplyStopsHandshake` | unityTemplate/Assets/ConnectionHandler.cs:105-115 | A reply without a colon stores the trimmed reply as the identity, never connects, keeps the old key, and sends no further GET. |
| `Upload.UploadBuffer` | unityTemplate/Assets/ConnectionHandler.cs:155-165 | The PUT body is the name's UTF-8 bytes and then the encrypted blob, with nothing between them. |
| `Upload.PrepareUpload` | unityTemplate/Assets/ConnectionHandler.cs:155-165 | A body is prepared iff the file exists and encryption succeeds. Otherwise the error says whether the read or the encryption failed. The body is the name followed by the encrypted file. |
| `Upload.Chain` | unityTemplate/Assets/ConnectionHandler.cs:168-181 | PUT i carries what run i prepared, and every PUT but the last failed. The chain is delivered after a success, pending only when every attempt failed, and aborted at the first run that threw. |
| `Upload.RunUpload` | unityTemplate/Assets/ConnectionHandler.cs:135-193 | The same guarantees as `Chain`, stated over the attempts' disks, IVs and results. |
| `Upload.SentBody` | unityTemplate/Assets/ConnectionHandler.cs:155-165 | The body of a sendable attempt is the name, the attempt's IV, and the ciphertext of the file as read in that attempt. |
| `Upload.DeliveredAfterFailures` | unityTemplate/Assets/ConnectionHandler.cs:173-181 | For every n, n failed PUTs and then a success deliver after exactly n + 1 PUTs. Each PUT re-reads the file and uses its own attempt's IV. |
| `Upload.NeverGivesUp` | unityTemplate/Assets/ConnectionHandler.cs:173-177 | While every PUT fails the chain never stops: one PUT per attempt, still pending. |
| `Upload.NoKeyNoRequest` | unityTemplate/Assets/ConnectionHandler.cs:160 | Without a usable key the first run throws in `Encrypt`: no PUT is sent and nothing retries. |
| `Upload.RetriesDifferByIv` | unityTemplate/Assets/ConnectionHandler.cs:176 | Two PUTs of a chain whose attempts drew different IVs carry different bytes. |
| `Experiment.FormatStamp` | unityTemplate/Assets/ExperimentHandler.cs:112 | The `yyyy-MM-dd_HH-mm` stamp always has 16 characters. |
| `Experiment.FileName` | unityTemplate/Assets/ExperimentHandler.cs:110-113 | The name starts with "onlineVR_" and is 28 characters plus the subject plus the block's digits long. |
| `Experiment.CombinePath` | unityTemplate/Assets/ExperimentHandler.cs:116 | `Path.Combine` always ends with the second part, with at most the first part and one separator before it. |
| `Experiment.FilePath` | unityTemplate/Assets/ExperimentHandler.cs:116 | The data path ends with the name plus ".csv", with at most the data directory and one separator before it. |
| `Experiment.Field` | unityTemplate/Assets/ExperimentHandler.cs:112 | A field of the date format has exactly its width, all digits. |
| `Experiment.FieldIsZeroPadded` | unityTemplate/Assets/ExperimentHandler.cs:112 | For a value that fits, the field is the number's decimal spelling zero-filled to the width. |
| `Experiment.StampRoundTrip` | unityTemplate/Assets/ExperimentHandler.cs:112 | The 16-character stamp reads back as the same moment. |
| `Experiment.FileNameFields` | unityTemplate/Assets/ExperimentHandler.cs:110-113 | The name splits back at fixed offsets into the prefix, the subject, the stamp (which reads back) and the block (which reads back). |
| `Experiment.FileNameLength` | unityTemplate/Assets/ExperimentHandler.cs:110-113 | A six-character subject and a one-digit block give a 35-character name. |
| `Experiment.FileNameAscii` | unityTemplate/Assets/ExperimentHandler.cs:110-113 | A name built on an ASCII subject is ASCII. |
| `Experiment.FileNameInjective` | unityTemplate/Assets/ExperimentHandler.cs:110-113 | Names of equal-length subjects coincide only when subject, stamp and block all do. |
| `Experiment.BlocksGetDistinctNames` | unityTemplate/Assets/ExperimentHandler.cs:101-113 | Blocks 1 and 2 never share a file name, whatever the clock reads. |
| `Experiment.CombinePathShape` | unityTemplate/Assets/ExperimentHandler.cs:116 | For a relative second part, the path starts with the first part and ends with the second. At most one separator lies between them, and there is one whenever the first part does not already end in one. |
| `Experiment.FilePathShape` | unityTemplate/Assets/ExperimentHandler.cs:116 | The data file lies in the data directory under the name plus ".csv", with at most one separator between. |
| `Experiment.TabulateShape` | unityTemplate/Assets/ExperimentHandler.cs:101 | The loop's collected calls are one per block, element i belonging to block i + 1. |
| `Experiment.WrittenShape` | unityTemplate/Assets/ExperimentHandler.cs:122-130 | Writing the files adds exactly their paths to the disk, each holding the data line, and leaves every other file alone. |
| `Experiment.RunBlocks` | unityTemplate/Assets/ExperimentHandler.cs:101-140 | The block loop makes the calls of blocks 1..n in order and leaves the disk with each call's file written. |
| `Experiment.ExperimentSequence` | unityTemplate/Assets/ExperimentHandler.cs:74-140 | Without a connection: no call and no file. With one: two calls with distinct names, call i being block i + 1's name and path for the subject's number. The disk gains exactly those files. |
| `Experiment.RetrySuccessComesTooLate` | unityTemplate/Assets/ExperimentHandler.cs:74-84 | When the first GET fails and the retry succeeds, the sequence reads "not connected" though the handshake ends connected. |
| `Server.ReadCounter` | 2_webAppFiles/bottle_app.py:49 | A counter is read only from text that strips to a sign or digit followed by digits. |
| `Server.WelcomeBody` | 2_webAppFiles/bottle_app.py:72 | The reply has a colon. For 0 <= id < 10^6 it is 6 + 3 + 16 characters long. |
| `Server.DataPath` | 2_webAppFiles/bottle_app.py:91 | The path is `./mysite/files/`, then the name unchanged, then `.bytes`. |
| `Server.EncryptionKeyIsToken` | 2_webAppFiles/bottle_app.py:29 | The key has no colon and no surrounding whitespace, so the client's parsing returns it unchanged. |
| `Server.CounterReadsBack` | 2_webAppFiles/bottle_app.py:48-54 | The text `str(n)` written to the id file reads back as n after `strip` and `int`. |
| `Server.GetNextId` | 2_webAppFiles/bottle_app.py:40-56 | Succeeds iff the id file exists and holds an integer; the error says which failed. The id is the file's counter, and the new text reads back as its successor. |
| `Server.Welcome` | 2_webAppFiles/bottle_app.py:62-73 | Answers 200 iff the counter is readable, with "<id> : <key>", and advances the counter by one. A 500 changes nothing, and no GET touches the data files. |
| `Server.ServeCounts` | 2_webAppFiles/bottle_app.py:40-56 | A handler that answers with its counter and advances it answers c, c+1, ... to successive requests and leaves the counter at c+n. |
| `Server.ConsecutiveIds` | 2_webAppFiles/bottle_app.py:40-73 | Successive GETs from counter c hand out ids c, c+1, c+2, ..., all with the same key. |
| `Server.NthReply` | 2_webAppFiles/bottle_app.py:40-73 | The i-th of n GETs from counter c is answered with the reply for id c + i. |
| `Server.CounterAfterGets` | 2_webAppFiles/bottle_app.py:53-54 | After n GETs from counter c, the id file reads c + n. |
| `Server.GetsKeepFiles` | 2_webAppFiles/bottle_app.py:62-73 | Any number of GETs leave the stored data files unchanged. |
| `Server.UnreadableCounterFailsAll` | 2_webAppFiles/bottle_app.py:48-49 | Without a readable counter every GET answers 500 and nothing changes. |
| `Server.SplitUpload` | 2_webAppFiles/bottle_app.py:88-95 | The name part and the data part together give back the body. The name part is 35 bytes, or the whole body when that is shorter. |
| `Server.DataPathInjective` | 2_webAppFiles/bottle_app.py:91 | Different names are stored under different paths. |
| `Server.SaveData` | 2_webAppFiles/bottle_app.py:79-97 | Succeeds iff the first 35 bytes are valid UTF-8, answering "Upload complete.". It then adds or overwrites exactly the file for that name with the remaining bytes and keeps every other file. A 500 changes nothing, and no PUT touches the id file. |
| `Server.SaveDataLossless` | 2_webAppFiles/bottle_app.py:88-95 | For an accepted upload, the encoded name followed by the stored bytes is the whole body. |
| `Server.SaveFramed` | 2_webAppFiles/bottle_app.py:85-97 | A body that starts with a name of exactly 35 encoded bytes stores all the rest under that name. |
| `Server.SaveShifted` | 2_webAppFiles/bottle_app.py:85-97 | When the name is longer than 35 bytes, the server stores the name's excess bytes in front of the data, under the name's first 35 bytes. |
| `Protocol.AsReply` | unityTemplate/Assets/ConnectionHandler.cs:79-82 | The client sees a request error iff the server answered 500; on 200 it reads the body. |
| `Protocol.ReplyParsesBack` | 2_webAppFiles/bottle_app.py:72 | The client's parsing of the server's reply yields exactly the six-digit id and the server's key. |
| `Protocol.DistinctIdsDistinctIdentities` | 2_webAppFiles/bottle_app.py:72 | Replies for different ids are both 200 and give the client different identities. |
| `Protocol.HandshakeMeetsServer` | unityTemplate/Assets/ConnectionHandler.cs:102-125 | A GET on a readable counter c connects the client in one round, with identity `06d`(c) and the server's key. |
| `Protocol.HandshakeRetriesUnreadableCounter` | unityTemplate/Assets/ConnectionHandler.cs:82-93 | A server without a readable counter answers 500 and keeps its disk; the client counts one retry and sends another GET. |
| `Protocol.KeyFitsAes` | unityTemplate/Assets/ConnectionHandler.cs:221 | The server's key encodes to 16 bytes, a valid AES-128 key. |
| `Protocol.FileNameFitsFrame` | unityTemplate/Assets/ExperimentHandler.cs:110-113 | For ids 0..999999 and blocks 1..9, the file name and its UTF-8 encoding are exactly the 35 bytes the server cuts off. |
| `Protocol.UploadRoundTrip` | 2_webAppFiles/bottle_app.py:85-97 | An encrypted upload with a 35-byte name is answered "Upload complete." and stored as IV plus ciphertext under that name. The key holder decrypts the stored file back to the data. |
| `Protocol.DeliveredUploadDecrypts` | unityTemplate/Assets/ConnectionHandler.cs:135-193 | The PUT that gets through in a delivered chain is accepted by the server, and its stored file decrypts to the data as read in that attempt. |
| `Protocol.DistinctSubjectsDistinctFiles` | 2_webAppFiles/bottle_app.py:91 | Uploads of different ids in 0..999999 never land on the same server path, whatever stamps and blocks. |
| `Protocol.SeventhDigitShiftsFrame` | 2_webAppFiles/bottle_app.py:88-95 | For seven-digit ids the name is 36 characters. The server stores the upload under the first 35, with the last name byte in front of the IV. |
| `Protocol.SevenDigitName` | unityTemplate/Assets/ExperimentHandler.cs:110-113 | A seven-digit id gives a 36-character ASCII name. |

## Left out

- AES-CBC with PKCS7 padding is library code. It is the `Cipher` parameter, and decryption is any function that inverts it.
- The random IV generator (`RNGCryptoServiceProvider`) is not modelled. Its output is an input of each attempt.
- Network timing is not modelled: the 4-second wait before a retry and the asynchronous interleaving of coroutines. Replies and request results are inputs in order. Uploads of the two blocks overlapping in time are not modelled either, because each chain is modelled on its own.
- Server.ConsecutiveIds: holds only when the server handles GETs one at a time, and so do `Server.NthReply` and `Server.CounterAfterGets`. The header promises unique ids (bottle_app.py:6, :12), but `get_next_id` reads `id.txt`, closes it, reopens it for writing and writes the successor (bottle_app.py:48-54) without a lock. On a threaded or multi-worker server, two GETs handled at the same time can both read c and both answer "<c> : <key>", so two participants share a subject number and the counter gains one instead of two. A read that falls between the truncating open and the write sees an empty file, and `int('')` turns that GET into a 500.
- Server.NthReply: assumes GETs are handled one after another; see the line above for the read-then-write race on `id.txt`.
- Server.CounterAfterGets: assumes GETs are handled one after another; concurrent GETs can lose increments, as described above.
- Upload.DeliveredAfterFailures: fixes one name and path for the whole chain. In the code, the block loop does not yield, so block 2's `UploadData` overwrites `fileName_upload` and `filePath_upload` (ConnectionHandler.cs:188-189) right after block 1's first PUT has been built and sent (ExperimentHandler.cs:101-132). Every retry of block 1 (ConnectionHandler.cs:176, re-entering 155-159) then sends block 2's name and block 2's file, so when block 1's first PUT fails, block 1's data never reaches the server and both chains deliver block 2's file (the later write overwrites the earlier one under block 2's name).
- Protocol.DeliveredUploadDecrypts: states delivery for a chain whose name and path stay fixed. With the two blocks' uploads overlapping, what a retried block-1 chain delivers is block 2's file under block 2's name, for the reason given in the line above.
- A lone surrogate in a C# string is encoded by `Encoding.UTF8` as the replacement bytes EF BF BD. A Dafny `char` cannot hold a surrogate, so that case is outside `Utf8.Encode`. Names built from ASCII subjects never contain one.
- UI and logging have no effect on the protocol: `StatusText`, `displayMenu`, `Debug.Log`, the connection menu, `BasicScene` and `print`. The status messages are kept only as `Handshake.StatusMessage`.
- `serverAddress` and `Application.persistentDataPath` are configuration. The data directory is a parameter.
- Python `int()` accepts underscores and non-ASCII digits. The model parses only an optional sign and ASCII digits, which covers everything the server itself writes.
- File-system failures are not modelled: no permission, a missing `./mysite/files/` directory, path characters inside the decoded name, and the write of `id.txt` failing after the read. Only the missing or unreadable id file and a name that is not valid UTF-8 are modelled as 500 responses.
- Path.Combine: only the .NET Core rule is modelled. Older Mono behaviour with invalid path characters is out.
- `DateTime.Now` is a `clock` parameter. The invariant culture set in `Awake` is assumed.
- Bottle's error page for a 500 is not modelled. Its text is the `errorPage` parameter, and the client never reads it.
- Experiment.ExperimentSequence: does not model the concurrent retry instances of `testConnection` that keep running after the sequence has checked the connection. Their effect is stated separately in `Experiment.RetrySuccessComesTooLate`.
