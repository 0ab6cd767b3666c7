# py-maes-ui: streaming engine, parameter derivation and task buffer

This project models the core of py-maes-ui, a desktop tool that encrypts and
decrypts files with AES in CBC mode. The GUI shell is left out. Three pieces of
sequential logic are modelled and proved:

- **The chunked streaming loop** (`EncPanel._cipher_bootstrap`, main.py), in
  `streaming.dfy`. The loop drives the input file through the cipher in reads of
  `CHUNK_SIZE` = 1,048,576 bytes. Once at most `CHUNK_SIZE + 16` bytes remain,
  the loop reads them all at once. The IV is chained from call to call as in
  section 6.2 of NIST SP 800-38A. Outputs are appended in read order, and a
  progress callback fires once per chunk. `CipherBootstrap` is the loop itself,
  with its invariants. `Run` is the specification the loop is proved against.
  The lemmas prove chunk sizes, coverage of the input, IV chaining and
  progress.
- **Parameter derivation** (`SettingsDialog.accept` and `update_message_widget`,
  libs/misc.py and the older identical copy in misc.py), in `settings.dfy`.
  `accept` checks the IV text and decodes it pair by pair. It validates the
  password or the key file, then truncates the SHA-256 digest (section 6.2 of
  FIPS 180-4) to 16, 24 or 32 bytes. `AcceptSpec` gives the result of `accept`.
  The `SettingsDialog` class updates its `initVector` and `key` fields in the
  source's order. The IV is written before the mode checks, so a later
  rejection keeps the new IV and the old key.
- **The task buffer** (`TaskBuffer`, libs/misc.py), in `tasks.dfy`. It is a FIFO
  of file names. `new_task(act)` starts the head name with the action of the job
  that just finished. On an empty buffer it signals that all tasks are done.
  `ReplayIsFifo` proves FIFO order for any interleaving of additions and
  finished jobs.
- **Panel glue** (main.py), in `panel.dfy`. This covers the `.aes` output name,
  how a list of files is split between the input field and the buffer, the
  display unit of a size, and the panel's reaction to a finished job.

`common.dfy` holds the `byte` type and the `Option`/`Result` wrappers.

The cipher, SHA-256 and the encoding of password text into bytes are
parameters of the model. `Cipher` takes `(chunk, iv)` and returns
`(output, next iv)`. Like the source's call, it takes no key. `Hash` returns a
32-byte `Digest`. The dialog's widgets and the user's answer to the
weak-password question become a `Form` value. So does the result of reading the
key file, which is `None` when the file cannot be read.

misc.py's `accept` (misc.py:166-215) has the same branches as libs/misc.py's
(libs/misc.py:174-226). Its constants `block_size`/`block_size_and_a_byte`
(misc.py:9-10) equal `CHUNK_SIZE`/`CHUNK_SIZE_AND_A_BLOCK`. The same members
model both copies, and the table cites each file for some of them.

Behaviour of the code worth noting:
- A failed job does not advance the queue. An exception inside the `with` body
  skips main.py:313-331, so the files stay open and `task_finished` is never
  emitted. `TaskFinished` models only the success path.
- Three failures of `accept` are exceptions, not message boxes:
  - an unreadable key file raises at libs/misc.py:207;
  - a pair of the IV text that is not hexadecimal raises in `int(..., base=16)`;
  - a key-length id outside 1..3 raises in the dict lookup.

  The model returns these as the `Rejected` reasons `KeyFileUnreadable`,
  `NonHexInitVector` and `UnknownKeyLength`. In each case the field that the
  raising statement would have assigned keeps its old value.
- The weak-password warning is a Yes/No question. An empty password is rejected
  whatever the answer.

## Model

| member | source | states |
|---|---|---|
| `Streaming.ReadSize` | main.py:273-276 | a read takes the whole remainder exactly when at most CHUNK_SIZE+16 bytes remain; otherwise it takes CHUNK_SIZE bytes and leaves more than 16 |
| `Streaming.ChunkSizes` | main.py:267-281 | the read sizes sum to the input size; every read is positive and at most CHUNK_SIZE+16; all reads but the last are CHUNK_SIZE; with more than one read the last exceeds 16 bytes; no reads for size 0 |
| `Streaming.CipherBootstrap` | main.py:260-285 | the loop performs exactly the rounds of `Run` from the caller's IV, and its output is the cipher outputs concatenated in read order |
| `Streaming.RunFollowsChunkSizes` | main.py:270-281 | the sizes of the loop's reads are `ChunkSizes` of the input size, in order |
| `Streaming.RunReadsInput` | main.py:277-281 | the chunks read, concatenated in read order, are exactly the input: no byte is skipped or read twice |
| `Streaming.RunRoundSizes` | main.py:273-283 | every callback's chunk size is the length of the chunk read, positive and at most CHUNK_SIZE+16 |
| `Streaming.RunChainsIv` | main.py:277-278 | the first cipher call gets the caller's IV; call k+1 gets exactly the IV returned by call k; each round records the cipher's own result |
| `Streaming.RunProgress` | main.py:280-283 | the reported total grows by the chunk size at each callback, so it strictly increases, and the last value equals the input size |
| `Streaming.EmptyInputNoRounds` | main.py:265-272 | there are no rounds (no cipher call, write or callback) exactly when the input is empty |
| `Streaming.ExampleChunking` | libs/misc.py:9-10 | 1,500,000 bytes are read as 1,048,576 then 451,424 |
| `Settings.HexValue` | libs/misc.py:183-186 | a character has a base-16 value exactly when it is 0-9, a-f or A-F, and that value is below 16 |
| `Settings.PairValue` | misc.py:174-177 | two hex digits decode to the byte 16*high + low; anything else fails |
| `Settings.DecodeHex` | libs/misc.py:182-187 | decoding succeeds exactly on all-hex text; the result has half the text's length, and byte i is the value of characters 2i and 2i+1 |
| `Settings.DecodeEncodeHex` | misc.py:174-178 | decoding the hex text of any bytes gives the bytes back |
| `Settings.EncodeDecodeHex` | libs/misc.py:182-187 | encoding the decoded bytes of a hex text gives the text with its letters in lower case |
| `Settings.KeyLength` | libs/misc.py:220-224 | key-length ids 1, 2, 3 give 16, 24, 32 bytes (8*(id+1)); any other id gives none |
| `Settings.DigestInput` | libs/misc.py:189-216 | there is a digest input exactly for a non-empty password (at least 6 characters, or confirmed) or a readable, non-empty key file at a non-empty path; a declined short password, an empty path or empty key file, and no mode each give their rejection |
| `Settings.AcceptSpec` | libs/misc.py:174-226 | a wrong-length or non-hex IV text changes nothing; otherwise the IV becomes the 16 decoded bytes even if a later check rejects; a rejection keeps the old key; acceptance happens exactly when every check passes, and the key is then the leading KeyLength bytes of SHA-256 of the digest input |
| `Settings.SettingsDialog.Accept` | misc.py:166-215 | the dialog's fields and the outcome after the early-return sequence are those `AcceptSpec` gives, and the IV-length and key-length invariant is kept |
| `Settings.KeyPrefix` | misc.py:209-213 | for the same form, a shorter key choice gives a prefix of the key of a longer one |
| `Settings.DefaultSettingsAccepted` | main.py:235-241 | the start-up accept of the initial widgets succeeds with a zero IV and the first 16 digest bytes of "123456" |
| `Settings.PasswordStrength` | libs/misc.py:54-66 | the label is Strong for more than 10 characters, Acceptable for 6 to 10, and Weak for at most 5 |
| `Settings.StrengthMonotone` | misc.py:51-63 | a longer password never gets a lower strength label |
| `Settings.WeakLabelExactlyWhenAsked` | libs/misc.py:54-66 | with a valid IV and the answer No, `accept` rejects a password as weak exactly when its label is "Weak" (at most 5 characters) |
| `Tasks.Advance` | libs/misc.py:271-276 | on an empty buffer all-done is signalled and the buffer stays empty; otherwise the head is started with the given action and only the head is removed |
| `Tasks.Drain` | libs/misc.py:262-276 | repeated `new_task(act)` calls start every name in buffer order with the same action, then signal all-done |
| `Tasks.ReplayIsFifo` | libs/misc.py:263-276 | under any interleaving of additions and finished jobs, the names started followed by the names waiting are exactly the names added, in order |
| `Tasks.LateAdditionKeepsOrder` | libs/misc.py:263-273 | with a, b, c queued and d added while b runs, the start order is a, b, c, d |
| `Tasks.TaskBuffer.Extend` | libs/misc.py:263-267 | the names are appended at the tail in their order, earlier entries are untouched, and the label shows the new length |
| `Tasks.TaskBuffer.NewTask` | libs/misc.py:271-281 | the buffer and the emitted signal follow `Advance`, and the label shows the remaining length |
| `Panel.OutputPath` | main.py:191 | the output path is the input path followed by ".aes" |
| `Panel.OutputPathInjective` | main.py:72 | two different inputs never get the same output path |
| `Panel.Route` | main.py:361-368 | with an empty input field the first file is selected and the rest queued, otherwise all are queued; the selection followed by the queue is the given list; an empty list with an empty field fails |
| `Panel.UnitOf` | main.py:288-299 | GB above 1,024,000,000, MB above 1,024,000, kB above 1024, otherwise B, all with strict comparisons |
| `Panel.UnitMonotone` | main.py:290-298 | a larger size is never shown in a smaller unit |
| `Panel.EncPanel.EchoSelectedFile` | main.py:196-199 | the input field shows the file and the output field shows its ".aes" name |
| `Panel.EncPanel.EmitExtendBuffer` | main.py:361-368 | the buffer grows by the routed queue; a selected file fills both path fields; an empty list with an empty field changes nothing |
| `Panel.EncPanel.TaskFinished` | main.py:326-331 | the path fields are cleared; the buffer advances as `Advance` says; a started name is shown with its ".aes" output path |

## Left out

- The AES cipher (`maes.cbc_aes`, `maes.inv_cbc_aes`) is foreign native code, so it is the `Cipher` parameter. The self-test `maes.encrypt` (main.py:265), which passes the key to the cipher module, is not modelled. It runs after `open_files` has opened both files (main.py:220-227, truncating the output) and before the first read. If it raises, the job ends like any other failure, which is left out.
- SHA-256 (`hashlib.sha256`) is foreign code, so it is the `Hash` parameter, a function returning 32 bytes. The conversion of password text into bytes is the `encode` parameter, a total function.
- Qt widgets, layouts, message boxes, file dialogs, signals and drag-and-drop are GUI, so user answers and radio-button ids are `Form` fields.
- The worker thread of `start_action` (main.py:334-343) and cross-thread signal delivery are concurrency. The model runs each step to completion.
- File I/O (`open_files`, `read`, `write`, the key-file read) is left out. Files are byte sequences, and the loop's `size` is the input's length, which is what `open_files` measures.
- Timing, speed and percentages (`gen_callback`, the `action` epilogue's report) use clocks and floats, so they are left out. So is the number formatting of `to_human_readable`.
- The failure path of a job is left out. An exception in the loop leaves the queue stalled, and no member models advancing after a failure.
- `Streaming.CipherBootstrap`: the running total `processed_size` is a float in the source. It is modelled as a natural number, which is exact below 2^53 bytes.
- `Settings.HexValue`: only two ASCII hexadecimal digits decode a pair. Python 2's `int(pair, 16)` on a unicode pair also accepts whitespace, a sign and non-ASCII decimal digits, all of which the model rejects.
- `Settings.SettingsDialog.Accept`: in Python 2, `hashlib.sha256` of a password with non-ASCII characters raises after the IV has been written, so the old key stays. The total `encode` parameter lets the model accept such a password instead.
- `Settings.SettingsDialog.Accept`: password length is counted in characters of the model's string. Python counts the code units of its unicode string.
- `Panel.EncPanel.EmitExtendBuffer`: selecting an empty file name opens a file dialog. The model treats that dialog as cancelled.
- `Panel.UnitOf`: only integer sizes are modelled. `to_human_readable` is also called with float speeds.
- `select_file`'s update of the last directory, `show_settings_dialog`'s change logging, `get_parameters`, `reject` and `logger.py` are left out. They are presentation or logging and carry no invariant.
