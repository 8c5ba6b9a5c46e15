# Healthcare hash-chain ledger, modelled in Dafny

`HEALTHCARE.py` keeps patient records in a hash-linked ledger. Each
`Block` holds an index, a timestamp, a patient id, a record (a dict), the
hash of the block before it and its own hash. That hash is the SHA-256
hex digest of the UTF-8 bytes of a compact, key-sorted JSON text of the
other five fields. A `Blockchain` starts with a fixed genesis block. It
appends one sealed block per `add_record` call and keeps a patient index
from patient id to the positions of that patient's blocks. It answers
"all records" and "latest record" lookups from that index. `validate`
walks the chain from position 1: at each position it checks the link to
the previous block first, then recomputes the hash, and it stops at the
first failure with a message.

The project has one module per concern:

- `Utf8` (`utf8.dfy`) is `str.encode("utf-8")`, with the proof that it is
  injective on ASCII text.
- `JsonValue` (`json_value.dfy`) is the JSON-encodable values and the key
  order that `sort_keys=True` uses (Python's `<` on `str`).
- `JsonEncode` (`json_encode.dfy`) is `json.dumps(..., sort_keys=True,
  separators=(",", ":"))` with the default `ensure_ascii=True`: escapes,
  surrogate pairs, `repr` of ints, and sorted dict members.
- `JsonDecode` (`json_decode.dfy`) is a reader for that text, proved to
  be a left inverse of `Dumps`. This makes the canonical text injective on
  the values the model can express, whose strings are sequences of Unicode
  scalar values (see "Left out" for the strings Python has beyond those).
- `Blocks` (`block.dfy`) is the block, its payload, `compute_hash` and
  `create`. It includes the chain of injectivity lemmas that lead from
  equal digests to equal block contents, under a collision-freedom
  hypothesis on the digest.
- `Ledger` (`ledger.dfy`) holds the specification functions of a chain
  (integrity, first failure, chains built through the write path, the
  patient index) and the class `Blockchain`. The class's methods and
  functions are proved against those specification functions.
- `Scenarios` (`scenarios.dfy`) follows the menu's flows on the API without
  their console I/O: lookups after several appends, and the tamper demo
  followed by validation.

SHA-256 is a function-valued parameter (`Sha256 = seq<byte> -> string`),
fixed when the ledger is built. Every statement that needs the digest to
distinguish inputs assumes `CollisionFree(h)` explicitly. The clock
reading `datetime.now().isoformat(timespec="seconds")` is an input string
to the constructor and to `AddRecord`.

## Model

| member | source | states |
|---|---|---|
| Utf8.EncodeChar | HEALTHCARE.py:36 | a character's UTF-8 encoding has one to four bytes; it is one byte exactly for ASCII, and that byte is the character code |
| Utf8.Encode | HEALTHCARE.py:36 | a text's encoding is never shorter than the text |
| Utf8.EncodeAscii | HEALTHCARE.py:36 | on ASCII text the encoding is one byte per character, equal to the character codes |
| Utf8.EncodeInjectiveOnAscii | HEALTHCARE.py:36 | two ASCII texts with the same UTF-8 bytes are equal |
| JsonValue.LexTotal | HEALTHCARE.py:35 | str ordering is total and asymmetric on distinct keys |
| JsonValue.LexTransitive | HEALTHCARE.py:35 | str ordering is transitive |
| JsonValue.LexIrreflexive | HEALTHCARE.py:35 | no key is before itself |
| JsonValue.LeastExists | HEALTHCARE.py:35 | every non-empty key set has a least key |
| JsonValue.LeastUnique | HEALTHCARE.py:35 | the least key of a set is unique |
| JsonValue.SortedKeysSpec | HEALTHCARE.py:35 | `sort_keys=True` lists every key of a dict exactly once, in strictly increasing order |
| JsonValue.SortedKeysUnique | HEALTHCARE.py:35 | any strictly increasing listing of the keys is the sorted order, so the member order is determined by the key set alone |
| JsonEncode.HexDigit | HEALTHCARE.py:35 | the digit is `0`-`9` or lower-case `a`-`f`, with the given value |
| JsonEncode.EscapeChar | HEALTHCARE.py:35 | an escape is never empty and never starts with a quote; it is a backslash sequence, or the character itself when that is printable ASCII |
| JsonEncode.NatTextDigits | HEALTHCARE.py:35 | the text of a natural number is made of decimal digits |
| JsonEncode.IntText | HEALTHCARE.py:35 | an int's text starts with `-` exactly when the int is negative, and otherwise with a digit |
| JsonValue.SortedKeys | HEALTHCARE.py:35 | the key order of `sort_keys=True`: the least key first, then the other keys in the same order; `SortedKeysSpec` and `SortedKeysUnique` state what it lists |
| JsonEncode.Escape | HEALTHCARE.py:35 | the escaped characters of a string, one escape per character in order, never shorter than the string; `ParseEscape` reads them back |
| JsonEncode.Quote | HEALTHCARE.py:35 | a string literal: the escaped string between two quotes; `ParseStrText` reads it back |
| JsonEncode.JoinItems | HEALTHCARE.py:35 | the texts of list items joined by `,` with no space; non-empty and starting a value when there is an item; `ParseJoinItems` reads them back |
| JsonEncode.JoinFields | HEALTHCARE.py:35 | the `"key":value` members for the given keys joined by `,`, with `:` and no spaces; starting with a quote when there is a key; `ParseJoinFields` reads them back |
| JsonEncode.Dumps | HEALTHCARE.py:35 | the text of a value is non-empty and starts with a character that can begin a value |
| JsonEncode.EscapeAscii | HEALTHCARE.py:35 | with `ensure_ascii=True`, every escaped string is ASCII |
| JsonEncode.DumpsAscii | HEALTHCARE.py:35 | the canonical text of any value is ASCII |
| JsonDecode.ParseHex4Inverse | HEALTHCARE.py:35 | reading four hexadecimal digits returns the number that was written |
| JsonDecode.CombineSplit | HEALTHCARE.py:35 | a character above 0xFFFF is recovered from its surrogate pair |
| JsonDecode.DecodeEscapeChar | HEALTHCARE.py:35 | decoding the escape of any character gives back that character and leaves the rest of the text |
| JsonDecode.ParseEscape | HEALTHCARE.py:35 | reading an escaped string up to its closing quote gives back the string |
| JsonDecode.NatTextValue | HEALTHCARE.py:35 | the digits of a natural number read back as that number |
| JsonDecode.ParseIntText | HEALTHCARE.py:35 | the text of any int, not followed by a digit, reads back as that int |
| JsonDecode.ParseStrText | HEALTHCARE.py:35 | a quoted string reads back as that string |
| JsonDecode.ParseJoinItems | HEALTHCARE.py:35 | the comma-separated items of a list read back as the same items, in order |
| JsonDecode.ParseJoinFields | HEALTHCARE.py:35 | the comma-separated members for some keys read back as the dict restricted to those keys |
| JsonDecode.ParseListText | HEALTHCARE.py:35 | the text of a list reads back as that list |
| JsonDecode.ParseDictText | HEALTHCARE.py:35 | the text of a dict reads back as that dict |
| JsonDecode.ParseDumps | HEALTHCARE.py:35 | reading the canonical text of any value, followed by a delimiter, gives back the value and the rest |
| JsonDecode.DumpsInjective | HEALTHCARE.py:35 | two values with the same canonical text are equal |
| Blocks.Payload | HEALTHCARE.py:27-33 | the five-member dict of index, timestamp, patient_id, record and previous_hash; `PayloadInjective` shows it keeps all five |
| Blocks.PayloadText | HEALTHCARE.py:35 | the compact, key-sorted JSON text of the payload; `PayloadKeyOrder` gives its member order and `PayloadTextInjective` shows it determines the five fields |
| Blocks.ComputeHash | HEALTHCARE.py:22-36 | `compute_hash`: the digest of the UTF-8 bytes of the payload text, a function of the five content fields alone; `ComputeHashInjective` shows a collision-free digest separates distinct fields |
| Blocks.Sealed | HEALTHCARE.py:88-89 | the check `validate` makes of a block's stored hash: it equals the hash recomputed from the block's own five fields; `SealedIffCreated` relates it to `create` |
| Blocks.Create | HEALTHCARE.py:39-44 | the new block stores the given index, timestamp, patient, record and previous hash, and its hash is the digest of exactly those five fields |
| Blocks.SealedIffCreated | HEALTHCARE.py:42-44 | a block's stored hash matches its contents exactly when it is what `create` makes of its own five fields |
| Blocks.PayloadKeyOrder | HEALTHCARE.py:27-35 | the payload text lists its members in the order index, patient_id, previous_hash, record, timestamp |
| Blocks.PayloadInjective | HEALTHCARE.py:27-33 | equal payloads have equal five fields |
| Blocks.PayloadTextInjective | HEALTHCARE.py:27-35 | equal payload texts have equal five fields |
| Blocks.HashInputInjective | HEALTHCARE.py:35-36 | equal UTF-8 bytes handed to the digest mean equal five fields |
| Blocks.ComputeHashInjective | HEALTHCARE.py:22-36 | with a collision-free digest, equal computed hashes mean equal five fields |
| Blocks.RecordChangeUnseals | HEALTHCARE.py:22-36 | with a collision-free digest, replacing the record of a sealed block while keeping its hash leaves it unsealed |
| Ledger.Genesis | HEALTHCARE.py:53-54 | the genesis block has index 0, patient "0", record `{"note": "Genesis Block"}`, previous hash "0", and a matching hash |
| Ledger.LinkOk | HEALTHCARE.py:82-85 | the link check at position i: the block's previous hash equals the hash of the block before it |
| Ledger.PositionOk | HEALTHCARE.py:82-90 | both checks at position i pass: the link, then the recomputed hash |
| Ledger.Intact | HEALTHCARE.py:81-91 | every position from 1 to the end passes both checks, the condition under which `validate` returns true; `IntactIffNoFailure` ties it to the first failure |
| Ledger.BrokenLinkMessage | HEALTHCARE.py:86 | the message for a broken link at position i, with i in decimal; `MessagesDistinct` separates it from the other message |
| Ledger.HashMismatchMessage | HEALTHCARE.py:90 | the message for a hash mismatch at position i, with i in decimal |
| Ledger.FailureReason | HEALTHCARE.py:84-90 | a broken link is reported as such before the hash is looked at; otherwise the failure is a hash mismatch |
| Ledger.MessagesDistinct | HEALTHCARE.py:85-90 | the broken-link and hash-mismatch messages never coincide |
| Ledger.MessagePositions | HEALTHCARE.py:86-90 | each message names its position: two broken-link messages, or two hash-mismatch messages, are equal only for the same position |
| Ledger.PassedStep | HEALTHCARE.py:81-90 | one more passing position extends the passing prefix |
| Ledger.FirstFailureUnique | HEALTHCARE.py:81-90 | a chain has at most one first failing position |
| Ledger.FailureHasFirst | HEALTHCARE.py:81-90 | every failing position has a first failure at or before it |
| Ledger.IntactIffNoFailure | HEALTHCARE.py:79-91 | a chain passes every check exactly when it has no first failure |
| Ledger.Appended | HEALTHCARE.py:57-64 | appending adds one block and keeps every earlier one; the new block has the old length as index, links to the old last hash, holds the patient, record and time given, and is sealed |
| Ledger.Built | HEALTHCARE.py:48-64 | a ledger built by the constructor and n appends holds n + 1 blocks |
| Ledger.AppendedIntact | HEALTHCARE.py:57-64 | an append keeps an intact chain intact and cannot mend a broken one |
| Ledger.BuiltIntact | HEALTHCARE.py:48-91 | every chain built only through the constructor and `add_record` passes every check of `validate` |
| Ledger.BuiltPositions | HEALTHCARE.py:48-64 | a built chain starts with the genesis block, and block i sits at position i |
| Ledger.BuiltContents | HEALTHCARE.py:57-64 | block i of a built chain holds the patient and record of the i-th `add_record` call |
| Ledger.WithRecord | HEALTHCARE.py:183 | the tampered chain differs from the original only in the record of the chosen block |
| Ledger.TamperDetected | HEALTHCARE.py:183 | with a collision-free digest, changing a stored record of an intact chain makes that block the first failure, reported as a hash mismatch |
| Ledger.RelinkDetected | HEALTHCARE.py:84-85 | changing where a block points makes that block the first failure, reported as a broken link, whatever the digest |
| Ledger.ResealDetected | HEALTHCARE.py:84-90 | with a collision-free digest, replacing a block that has a successor by any other sealed block that keeps the link is caught at the successor, as a broken link |
| Ledger.ResealLastUndetected | HEALTHCARE.py:81-91 | resealing the last block while keeping its link is not caught, since no later block holds its hash |
| Ledger.GenesisNotRechecked | HEALTHCARE.py:81 | the genesis block is never re-hashed: any block with the same stored hash can replace it without changing the verdict |
| Ledger.Positions | HEALTHCARE.py:51-63 | the positions of a patient's blocks after the genesis block, in chain order: what the index list of that patient holds; `PositionsSpec` states it |
| Ledger.IndexOf | HEALTHCARE.py:51-63 | the index a chain determines: each patient with a block after the genesis block, mapped to that patient's positions; the class keeps its index equal to it |
| Ledger.AppendedList | HEALTHCARE.py:63 | the list `setdefault(patient_id, []).append(index)` leaves: the patient's old list, or an empty one, with the new position at its end; `IndexOfAppend` shows it yields the index of the longer chain |
| Ledger.PositionsSpec | HEALTHCARE.py:51-63 | a patient's positions are in bounds, point at that patient's blocks, list every block of that patient after the genesis block, and strictly increase |
| Ledger.PositionsListed | HEALTHCARE.py:63 | a patient with a listed position is a patient of the chain |
| Ledger.IndexOfCovers | HEALTHCARE.py:63-71 | every indexed patient has a non-empty list, and a patient missing from the index has no blocks |
| Ledger.PositionsAppend | HEALTHCARE.py:61-63 | appending a block adds its position at the end of its own patient's list and changes no other list |
| Ledger.PatientsAppend | HEALTHCARE.py:63 | appending a block adds its patient to the set of patients and nothing else |
| Ledger.IndexOfAppend | HEALTHCARE.py:61-63 | `setdefault(patient_id, []).append(index)` on the index of a chain gives exactly the index of the longer chain |
| Ledger.PositionsSamePatients | HEALTHCARE.py:63 | a patient's positions depend only on the blocks' patient ids |
| Ledger.IndexOfSamePatients | HEALTHCARE.py:183 | changing records but not patient ids leaves the index as it was |
| Ledger.Gather | HEALTHCARE.py:72 | the gathered blocks are the blocks at the given positions, one for each position, in the given order |
| Ledger.GatherPositions | HEALTHCARE.py:67-72 | the blocks at a patient's positions are exactly that patient's blocks after the genesis block, in chain order |
| Ledger.NewestListed | HEALTHCARE.py:74-76 | in a sound, complete and ordered list of a patient's blocks, no block of the patient comes after the last one listed |
| Ledger.Blockchain.constructor | HEALTHCARE.py:48-54 | a new ledger holds the genesis block alone, stamped with the given time, has an empty index, and is intact |
| Ledger.Blockchain.AddRecord | HEALTHCARE.py:57-64 | the chain gains one sealed block linked to the old last block, and the earlier blocks are unchanged; only the patient's list changes in the index, gaining the new position at its end; the result is the new block; the index invariant is kept and integrity is neither gained nor lost |
| Ledger.Blockchain.AllRecords | HEALTHCARE.py:67-72 | the result is exactly the patient's blocks after the genesis block, each the block at its own position, oldest first; it is empty for an unknown patient |
| Ledger.Blockchain.LatestRecord | HEALTHCARE.py:74-76 | None exactly when the patient has no block; otherwise the patient's block that no later block of the patient follows |
| Ledger.Blockchain.Validate | HEALTHCARE.py:79-91 | the verdict is true exactly when every position after the genesis block passes both checks, with no reason; otherwise the reason is the message of the first failing position, a broken link taking precedence over a hash mismatch |
| Ledger.Blockchain.TamperRecord | HEALTHCARE.py:171-186 | overwrites one field of one stored record and nothing else, leaving the hash and the index as they were |
| Scenarios.FirstVisit | HEALTHCARE.py:126-134 | after one append for P1, the chain has two blocks and the index lists P1 at position 1 only |
| Scenarios.FourVisits | HEALTHCARE.py:126-134 | after visits of P1, P1, P2 and P1, the index lists P1 at positions 1, 2 and 4 |
| Scenarios.LookupScenario | HEALTHCARE.py:137-160 | P1's records are blocks 1, 2 and 4, in that order; the latest is block 4; an unknown patient and the genesis patient "0" have no records |
| Scenarios.TamperScenario | HEALTHCARE.py:165-186 | with a collision-free digest, a fresh two-record ledger validates, and after block 1's diagnosis is overwritten validation fails at block 1 with a hash mismatch |

## Left out

- SHA-256 (`hashlib`) is not modelled: the digest is a parameter. Tamper detection is stated only under the explicit `CollisionFree` hypothesis, which no real digest meets in the strict sense; it stands for "with overwhelming probability".
- `datetime.now()` is not modelled: the timestamp is an argument of the constructor and of `AddRecord`.
- JsonDecode.DumpsInjective: holds for strings that are sequences of Unicode scalar values, which is what a Dafny `char` is. A Python `str` may also hold lone surrogate code points (U+D800 to U+DFFF), and those are not representable here. `json.dumps` with `ensure_ascii=True` writes the two code points `\ud83d\ude00` exactly as it writes the single character U+1F600, so on Python strings the canonical text is not injective. The same restriction applies to Blocks.PayloadTextInjective, Blocks.HashInputInjective, Blocks.ComputeHashInjective, Blocks.RecordChangeUnseals, Ledger.TamperDetected and Ledger.ResealDetected. In Python, overwriting a stored U+1F600 with that surrogate pair leaves the hash unchanged and `validate` still passes.
- JsonEncode.IntText: is total. CPython 3.11 and later (and the 2022 security releases of 3.7 to 3.10) raise `ValueError` when converting an int of more than 4300 decimal digits to text. There `json.dumps` fails inside `Block.create`, `add_record` raises, and the chain and index stay as they were because the append is never reached.
- Ledger.Blockchain.AddRecord: has no error path. Three ways `json.dumps` can raise inside `Block.create` are not modelled: the `ValueError` above for an int of more than 4300 digits, the `TypeError` for values it cannot encode, and the `RecursionError` for a record nested deeper than the interpreter's recursion limit (a list wrapped in itself about a thousand times, say). In each case Python's `add_record` raises and leaves the chain and the index as they were, while the model appends a sealed block for every record it can express, however deep.
- Floats, and values `json.dumps` rejects with `TypeError`, are not representable in `Value`. Dict keys are `str` only; Python's conversion of int, float, bool and None keys to strings is not modelled.
- Python aliasing is not modelled: records and blocks are values. In Python the stored block shares the caller's `record` dict, and `add_record`, `get_all_records` and `get_latest_record` return the stored `Block` objects themselves; a caller that mutates that dict or a returned block changes the chain behind the ledger's back. The model cannot express that change, except for the tamper demo's overwrite, which `TamperRecord` performs on the chain itself.
- `_print_block`, `print_chain` and the console `menu()` loop (`input`, `print`, choice dispatch) are console I/O and are left out. The scenarios follow the menu's flows on the API instead.
- Ledger.Blockchain.TamperRecord: accepts any field name. The menu's whitelist (`diagnosis`, `treatment`, `notes`), its lower-casing and its parsing of the index as an int are input handling and are left out; the index bounds check of the menu becomes the precondition.
- Scenarios.TamperScenario: builds its two records with `MenuRecord`, the menu's record without the optional `notes` member.
- JsonDecode.ParseValue: the reader exists only to prove `Dumps` injective, and is proved to be a left inverse of `Dumps` and nothing more. It also accepts some text `Dumps` never writes (leading zeros such as `007`, unsorted or repeated keys, `\u` escapes of printable characters), and it rejects whitespace, upper-case hex digits, fractions and exponents. It is not a model of `json.loads`.
