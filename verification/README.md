# Telegram Mini App init-data check and the send-report endpoint

This project models the server side of a Telegram Mini App spending tracker. It
covers two parts of `api/index.py`.

- **`validate_init_data`** checks the signed query string (the *init-data*) that
  Telegram hands to a Mini App. The steps are:
  1. parse the query string with `parse_qs`;
  2. take the first `hash` value and reject a missing one;
  3. build the *data-check-string*: every other key in ascending order, rendered as
     `key=<first value>` and joined by newlines;
  4. derive the secret key as HMAC-SHA-256 keyed by `b'WebAppData'` over the bot token;
  5. compare the lowercase hex HMAC of the check-string with the supplied hash;
  6. on a match, JSON-decode the first `user` value, or `"{}"` when there is none.

  Any exception makes it answer `None`.
- **`send_report`** (`POST /api/send-report`) decides the HTTP status and whether
  to send the report to the user's chat. The bot must be configured, the body must
  carry a truthy `initData` and `report`, and the init-data must validate to a
  truthy object. Only then does it send the report to that object's `id`.

Modules:

- `Wrappers`: the `Option` type.
- `Seqs`: general facts about sequences and their multisets, used by the proofs.
- `Strings`: `IndexOf`, `str.split`, `sep.join` and `split(sep, 1)`, and Python's
  code-point order on `str`. It proves the split/join round trips and that the
  order is a strict total order.
- `Bytes`: `bytes.hex()` and its inverse. It proves the round trips and
  injectivity.
- `Utf8`: `str.encode()` as UTF-8, with a strict decoder and the proof that
  decoding an encoding gives the text back.
- `Json`: the decoded JSON values, Python truthiness, and `dict.get` on an object
  whose repeated keys keep the last value.
- `Query`: `parse_qsl` and `parse_qs`. Fields are split on `&` and cut at the
  first `=`. Fields with no `=` or an empty value are dropped. Values are grouped
  by key in first-seen order.
- `CheckString`: sorting the parsed items, dropping `hash`, and rendering and
  joining the lines.
- `InitData`: `validate_init_data`.
- `SendReport`: the endpoint's decision function.

HMAC-SHA-256 (section 2 of RFC 2104 over the SHA-256 of FIPS 180-4), the percent
and `+` decoding of `parse_qs`, and `json.loads` are not defined here. They are
function-valued fields of `InitData.Primitives`, so every property holds for any
implementation of them. Three assumptions appear in `requires` clauses, across five lemmas:

- `WellFormed`, the MAC returns 32-byte tags: `SignatureLength`,
  `NonCanonicalHashRejected` and `SignedPayloadAccepted`.
- `json.loads("{}")` is the empty object: `NoUserFieldIsForbidden`.
- the validator's answer is `{"id": 42}`: `ReportReachesClaimedChat`.

The Bot API call is a parameter `deliver: Send -> Delivery` of the handler.

The comparison at api/index.py:72 is plain `==`, not a constant-time comparison.
The model follows the code.

## Model

| member | source | states |
|---|---|---|
| `InitData.ValidatePairs` | api/index.py:40-80 | A claim is returned exactly when the bot token is set and the first `hash` value is non-empty and equals the lowercase hex HMAC of the check-string under the key derived from the token. The claim is then what `json.loads` makes of the first `user` value, or of `"{}"`. Every other input gives None. |
| `InitData.MissingHashRejected` | api/index.py:44-47 | A payload with no `hash` field is rejected, whatever the MAC and JSON primitives are. |
| `InitData.NonCanonicalHashRejected` | api/index.py:65-72 | The hash is compared by plain equality with a 64-character lowercase hexdigest. A supplied hash of any other length, or with a character outside `0-9a-f`, never validates. |
| `InitData.ValidateInitData` | api/index.py:40-80 | On the raw query string: a claim comes back exactly when the token is set and the pairs `parse_qsl` decodes are authentic. It is `json.loads` of their first `user` value, or of `"{}"`. |
| `InitData.KeyLabelSpelling` | api/index.py:59 | The ten label bytes are the character codes of `WebAppData`, in order. |
| `InitData.SecretKey` | api/index.py:58-62 | With 32-byte tags, the derived secret key is 32 bytes long. |
| `InitData.Signature` | api/index.py:58-69 | The expected hash is lowercase hex, and reading it back gives exactly the tag HMAC(HMAC(`WebAppData`, token), UTF-8 of the check-string). |
| `InitData.SignatureLength` | api/index.py:65-69 | With 32-byte tags the hexdigest is 64 characters long. |
| `InitData.UserlessClaim` | api/index.py:74-75 | An authentic payload without a `user` field yields `json.loads("{}")`. |
| `InitData.FirstValuesDecide` | api/index.py:43-75 | Two payloads that agree on every key's first value validate alike. Later duplicate values never matter. |
| `InitData.PermutedPairsValidateAlike` | api/index.py:43-55 | With distinct keys, reordering the decoded pairs leaves the validation outcome unchanged. |
| `InitData.PermutedFieldsValidateAlike` | api/index.py:43-55 | With distinct decoded keys, reordering the `&`-separated fields of the raw init-data leaves the outcome unchanged. |
| `InitData.SignedParts` | api/index.py:44-55 | Appending `hash=<signature>` to hash-free data leaves the check-string and the `user` field unchanged, and the appended hash becomes the supplied one. |
| `InitData.SignedPayloadAccepted` | api/index.py:40-75 | Data signed with the token, as the client signs it, validates under that token to the decoded `user` field. This is the completeness partner of the rejection lemmas. |
| `Query.ValuesOfAppend` | api/index.py:43 | Appending a pair leaves every other key's recorded values unchanged. |
| `Query.ParseField` | api/index.py:43 | A field with no `=` is dropped. Otherwise it is cut at its first `=` and gives the decoded name and value, or nothing when the raw value is empty. |
| `Query.ParseFieldOf` | api/index.py:43 | A field `name=value` with an `=`-free name parses to its decoded name and value, or to nothing when the value is empty. |
| `Query.SplitOnceUnique` | api/index.py:43 | Cutting at the first `=` is the only way to read a field as an `=`-free name, `=`, and a value. |
| `Query.FieldPairsAppend` | api/index.py:43 | Parsing distributes over concatenated field lists. |
| `Query.FieldPairsThree` | api/index.py:43 | Parsing distributes over a list cut into three parts. |
| `Query.FieldPairsAt` | api/index.py:43 | The pairs parsed from a field list are those of one field plus those of the list without it (as multisets). |
| `Query.FieldPairsPermutation` | api/index.py:43 | Reordering the fields reorders the parsed pairs and changes nothing else (same multiset). |
| `Query.PlainFieldText` | api/index.py:43 | A field whose name and value contain no `&` renders without `&`. |
| `Query.FieldPairsOfTexts` | api/index.py:43 | Parsing the rendered texts of plain fields gives their decoded pairs. |
| `Query.QueryTextFieldPairs` | api/index.py:43 | Splitting a query string built from plain fields and parsing each field gives the fields' decoded pairs. |
| `Query.ParseQsl` | api/index.py:43 | `parse_qsl` inverts building a query string from plain fields: it gives back their decoded pairs, in order. |
| `Query.LookupSpec` | api/index.py:43-44 | `dict.get` finds nothing exactly when no entry has the key, and otherwise finds an entry of the dict. |
| `Query.LookupEntry` | api/index.py:43-44 | With distinct keys, every entry is found under its own key. |
| `Query.Add` | api/index.py:43 | Recording a value appends it to its key's list, or opens the list `[value]`. Every other key is unchanged. |
| `Query.AddDistinct` | api/index.py:43 | Recording a value keeps the dict's keys distinct. |
| `Query.Group` | api/index.py:43 | The `parse_qs` dict never holds a key twice. What each key holds is stated by `Query.GroupLookup`. |
| `Query.GroupLookup` | api/index.py:43 | In the `parse_qs` dict, each key maps to exactly the values recorded for it in input order, and keys never seen are absent. |
| `Query.GetFirst` | api/index.py:44-74 | `parsed.get(key, [default])[0]` is the default when no entry has the key. With distinct keys it is the first value of the key's entry. |
| `Query.GroupFirstOr` | api/index.py:44 | `parsed.get(key, [default])[0]` is the key's first recorded value, or the default. |
| `CheckString.SortedDistinct` | api/index.py:51 | Strictly ascending keys are distinct. |
| `CheckString.InsertElements` | api/index.py:51 | Insertion adds the entry and keeps every other one (multiset). |
| `CheckString.SortByKey` | api/index.py:51 | Sorting keeps the number of items. `CheckString.SortByKeyElements` and `CheckString.SortByKeySorted` state that the result is a permutation and strictly ascending. |
| `CheckString.SortByKeyElements` | api/index.py:51 | Sorting is a permutation of the dict's items. |
| `CheckString.InsertSorted` | api/index.py:51 | Inserting a new key into an ascending list keeps it strictly ascending. |
| `CheckString.SortByKeySorted` | api/index.py:51 | Sorting items with distinct keys orders them strictly ascending. |
| `CheckString.SortedUnique` | api/index.py:51 | Two strictly ascending lists with the same elements are equal. So `sorted()` has one possible result, whichever algorithm computes it. |
| `CheckString.Canonical` | api/index.py:51-53 | The loop never emits `hash`, emits at most one line per item, and emits one per item when no item is `hash`. `CheckString.CanonicalSpec` states the order and the values. |
| `CheckString.CanonicalAbove` | api/index.py:51-53 | The loop only keeps keys it is given, so a lower bound on them survives. |
| `CheckString.CanonicalSpec` | api/index.py:51-53 | The loop keeps the ascending order and drops exactly `hash`. Every other item becomes its key with its first value. |
| `CheckString.DataCheckString` | api/index.py:50-55 | The check-string is empty exactly when no item other than `hash` is left. `CheckString.CheckStringLines` states its lines. |
| `CheckString.LookupSameElements` | api/index.py:51 | Two dicts with distinct keys and the same items answer every lookup alike. |
| `CheckString.CheckEntriesOfPairs` | api/index.py:43-53 | The check-string's entries are strictly ascending and contain no `hash`. Each carries its key's first value, and every other key present has an entry. |
| `CheckString.CheckStringFirstValues` | api/index.py:43-55 | Only the first value of each key other than `hash` reaches the check-string. |
| `Query.ValuesOfDistinct` | api/index.py:43 | With distinct keys, each present key holds exactly its one value. |
| `Query.ValuesOfAbsent` | api/index.py:43-44 | A key that no pair carries has no values. |
| `Query.ValuesOfLastCount` | api/index.py:43 | The last pair adds one occurrence of a value under a key exactly when it is that key with that value. |
| `Query.ValuesOfCount` | api/index.py:43 | A value occurs under a key as often as that pair occurs in the input. |
| `Query.ValuesOfSameElements` | api/index.py:43 | Reordering the pairs keeps each key's values as a multiset. |
| `Query.PermutationValuesOf` | api/index.py:43 | With distinct keys, reordering the pairs leaves a key's values unchanged. |
| `Query.PermutationValues` | api/index.py:43 | With distinct keys, reordering the pairs leaves every key's values unchanged. |
| `CheckString.PermutationInvariant` | api/index.py:43-55 | With distinct keys, reordering the pairs leaves the check-string unchanged. |
| `Query.ValuesOfFrom` | api/index.py:43 | Every recorded value comes from an input pair under that key. |
| `CheckString.LineFree` | api/index.py:53 | A check-string line contains no newline when no input key or value does. |
| `CheckString.CheckStringLines` | api/index.py:50-55 | With no newline in any key or value, the check-string splits back into exactly its `key=value` lines: one `\n` between neighbours, none trailing, and `""` when there are no lines. |
| `Strings.IndexOfSpec` | api/index.py:43 | The position found holds the character, and no earlier position does. |
| `Strings.IndexOfFirst` | api/index.py:43 | A position holding the character with none before it is the one found. |
| `Strings.SplitOnceFirst` | api/index.py:43 | Where the first `=` of a field sits, `split('=', 1)` cuts: the name before it, the value after it. |
| `Strings.JoinEmpty` | api/index.py:55 | Joining non-empty lines gives `""` exactly when there are none. |
| `Strings.SplitPartsFree` | api/index.py:43 | No piece of a split contains the separator. |
| `Strings.SplitOnceSpec` | api/index.py:43 | `split(sep, 1)` fails exactly when `sep` is absent. Otherwise the two pieces rebuild the text, and the first is `sep`-free. |
| `Strings.IndexOfAfterPrefix` | api/index.py:43 | In `a + sep + b` with a `sep`-free `a`, the first `sep` is the one after `a`. |
| `Strings.JoinSplit` | api/index.py:55 | Joining the pieces of a split gives the text back. |
| `Strings.SplitJoin` | api/index.py:55 | Splitting a join of separator-free parts gives the parts back. |
| `Strings.LessIrreflexive` | api/index.py:51 | No string sorts before itself. |
| `Strings.LessAsymmetric` | api/index.py:51 | The order on strings is asymmetric. |
| `Strings.LessTransitive` | api/index.py:51 | The order on strings is transitive. |
| `Strings.LessTotal` | api/index.py:51 | Of two distinct strings, one sorts first. |
| `Bytes.DigitsAreTheAlphabet` | api/index.py:69 | The sixteen digits are `0123456789abcdef`, in order. |
| `Bytes.Hex` | api/index.py:69 | `hexdigest()` gives two lowercase hex digits per byte. |
| `Bytes.DigitValue` | api/index.py:69 | Exactly the lowercase hex digits have a value, and that value renders back as the digit. |
| `Bytes.DigitValueOfDigit` | api/index.py:69 | Reading a rendered digit gives back its nibble. |
| `Bytes.UnhexHex` | api/index.py:69 | Reading back a hexdigest gives the digest bytes. |
| `Bytes.HexUnhex` | api/index.py:69 | Every string that reads as bytes is the hexdigest of those bytes. |
| `Bytes.HexInjective` | api/index.py:69-72 | Distinct digests have distinct hex renderings, so comparing the hex compares the tags. |
| `Utf8.Encode` | api/index.py:60-67 | `str.encode()` gives one to four bytes per character. `Utf8.DecodeEncode` states that the encoding is lossless. |
| `Utf8.DecodeEncodeChar` | api/index.py:60 | Decoding reads back one encoded character, whatever follows it. |
| `Utf8.DecodeTwo` | api/index.py:60 | This holds for characters of two bytes. |
| `Utf8.DecodeThree` | api/index.py:60 | This holds for characters of three bytes. |
| `Utf8.DecodeFour` | api/index.py:60 | This holds for characters of four bytes. |
| `Utf8.DecodeEncode` | api/index.py:60-67 | Decoding an encoding gives the text back. |
| `Utf8.EncodeInjective` | api/index.py:60-67 | Distinct strings have distinct encodings, so the MAC input determines the token and the check-string. |
| `Json.Truthy` | api/index.py:92-98 | A JSON value is falsy exactly when it is `null`, `false`, `0`, `""`, `[]` or `{}`. |
| `Json.TruthyOpt` | api/index.py:92-98 | A `dict.get` result is truthy exactly when it is present and not falsy, so a missing key is falsy. |
| `Json.GetSpec` | api/index.py:89-90 | `dict.get` on a decoded object finds nothing exactly when no member has the key. Otherwise it finds the last member with the key. |
| `SendReport.HandleSendReport` | api/index.py:82-109 | The status is one of 200, 400, 403 or 500, and at most one send is made. A send is made exactly when the request is authorised (bot set, truthy `initData` and `report`, truthy object claim), and it carries the report verbatim to the claim's `id` (None when the `id` is missing or null). The status is 200 exactly when that send is delivered, and exactly when the reply is `{success: true}`. An unset bot answers 500 before anything else. With the bot set, an unreadable body and a body that is not a JSON object each answer 500 with no send. |
| `SendReport.Claim` | api/index.py:96 | A claim comes only from a string `initData` with the token set whose decoded pairs are authentic. |
| `SendReport.Authorised` | api/index.py:85-98 | An authorised request has a configured bot (a non-empty token) and an object body whose `initData` is a string with authentic decoded pairs. |
| `SendReport.ChatId` | api/index.py:102 | `user.get('id')` is None when the claim has no `id` and when its `id` is JSON null. Otherwise it is the claim's `id`, which is never null. |
| `SendReport.NonObjectClaimIsInternalError` | api/index.py:98-109 | A truthy claim that is not an object makes `user.get` raise, which gives 500 and no send. |
| `SendReport.MissingDataIsBadRequest` | api/index.py:88-93 | A body without a truthy `initData` or `report` gets 400 and no send, whatever validation would say. |
| `SendReport.RejectedInitDataIsForbidden` | api/index.py:95-99 | Init-data that validates to nothing or to a falsy value gets 403 and no send. |
| `SendReport.NoUserFieldIsForbidden` | api/index.py:74-75 | A genuine payload without a `user` field decodes to `{}`, which is falsy, so it gets 403 and no send. |
| `SendReport.TamperedInitDataIsForbidden` | api/index.py:65-77 | A payload whose hash does not match its check-string gets 403 and no send. |
| `SendReport.AuthorisedDelivered` | api/index.py:101-105 | An authorised request makes its one send and gets 200 `{success: true}` when the send is delivered. |
| `SendReport.AuthorisedSendRaised` | api/index.py:103-109 | When the Bot API call raises, the answer is 500 carrying its message, and the send was still attempted. |
| `SendReport.ReportReachesClaimedChat` | api/index.py:96-105 | For a claim `{"id": 42}`, the report reaches chat 42 verbatim in exactly one send, and the answer is 200. |

## Left out

- The internals of HMAC and SHA-256 are not defined; they are a parameter. So tamper
  detection and wrong-token rejection, which rest on collision resistance and
  unforgeability, are not claimed. `TamperedInitDataIsForbidden` states rejection
  relative to the check-string actually signed.
- The percent and `+` decoding inside `parse_qs` and the internals of `json.loads`
  are opaque parameters. JSON floating-point numbers are not among the modelled values.
- `parse_qs` options other than the defaults used (`keep_blank_values=False`,
  `strict_parsing=False`, separator `&`, no `max_num_fields`) are not modelled.
  Since empty values are dropped while parsing, a present `hash` is never empty.
  The empty-hash branch at api/index.py:46 is still part of `ValidatePairs`.
- The `str(e)` texts of Python-internal exceptions (the non-object body, the
  non-object claim, the unreadable request) are represented by the place they are
  raised (`Fault`), not by the message. Only the Bot API's message is carried.
- The `/start` handler and its keyboard markup (api/index.py:15-38), the index and
  status route (api/index.py:111-124), the webhook (api/index.py:126-140), Flask
  routing, `jsonify` and reading `BOT_TOKEN` from the environment are I/O glue. The
  token is a parameter of the model.
- TeleBot's own check of the token's shape when the bot is created is not modelled.
  A configured bot is one with a non-empty token.
- Timing, including constant-time comparison, is not modelled. The code compares
  with `==`.
- `Utf8.Encode`: strings holding lone surrogates are outside the model, because a `char`
  here is a Unicode scalar value. On such a string Python's `.encode()` raises. For the
  init-data (api/index.py:67) and for a surrogate-escaped `BOT_TOKEN` (api/index.py:60)
  the validator then returns None, so the request gets 403.
- `print` logging (api/index.py:38, 79, 108) is not modelled.
- Python's Timsort is replaced by insertion sort. `SortedUnique` shows that the
  result of sorting distinct keys does not depend on the algorithm.
