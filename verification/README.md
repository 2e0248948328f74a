# cgv-watcher in Dafny

cgv-watcher polls a cinema booking API for the screening dates of one film.
When dates appear that it has not seen before, it posts them to a Discord
webhook and records them in `seen_dates.json`. Each API request carries an
HMAC-SHA256 signature over `timestamp|path|body`.

This project models the parts of `main.py` that hold logic:

- **Reconciler** (`reconciler.dfy`): the decision in `main`. It compares the
  recorded dates with the fetched ones, announces the difference, and saves
  the union. An empty or failed fetch is a no-op. `Run` wraps the step with
  the state file, which is an abstract `Store` value: absent, or holding a set.
- **Fetcher** (`fetcher.dfy`): what `fetch_dates` makes of a reply. This
  covers `raise_for_status`, JSON decoding, the `"data"` key and the
  `scnYmd` comprehension. Every failure is caught and gives the empty set.
- **Signer** (`signer.dfy`, with `decimal.dfy` and `utf8.dfy`): the shape of
  the signed plaintext.
  - The timestamp is `str(int(time.time()))`. The clock is a `real`, and
    `int()` truncates toward zero.
  - Only the URL's path goes into the plaintext.
  - The body descriptor is chosen from the body's kind.
  - The plaintext is UTF-8 encoded before the MAC.
  - HMAC-SHA256 and base64 are foreign. They enter as the two function
    fields of a `Crypto` value, and nothing is assumed about them.
- **Notifier** (`notifier.dfy`): the text of `send_discord_message`. It uses
  `sorted()` under Python's string order. Where the source renders each
  `YYYYMMDD` as `YYYY-MM-DD` through `strptime`/`strftime`, the model slices
  the 8 characters. It joins the lines with newlines under a fixed
  header. A reader that parses the message back is its partner.
- **Wrappers** (`wrappers.dfy`): `Option`.

Three behaviours of `main.py` shape the model:

- `fetch_dates` validates no identifiers. An item without `scnYmd` raises
  `KeyError` inside the comprehension, and the catch-all handler then returns
  the empty set for the whole reply (`Fetcher.Collect`, `Fetcher.FetchDates`).
- A reply succeeds when `raise_for_status` lets it through. That call raises
  for statuses 400 to 599 only (`Fetcher.RaisesForStatus`).
- A corrupt `seen_dates.json` makes `json.load` raise. The model does not
  include that path (see Left out).

## Model

| member | source | states |
|---|---|---|
| Reconciler.Step | main.py:99-109 | An empty fetch announces nothing and writes nothing. A message is sent exactly when some fetched date is not yet seen, and it names exactly `current - seen`. A write happens exactly when a message is sent. The new record is `seen + current` after a write and `seen` otherwise. |
| Reconciler.StepAnnouncesOnlyNewDates | main.py:102-107 | Announced dates are non-empty, were fetched in this step, and are disjoint from the prior record. The record never shrinks. After a non-empty fetch the record covers the fetch. A write strictly grows the record. |
| Reconciler.StepIdempotent | main.py:103-109 | Repeating the step with the same fetch on the updated record announces nothing, writes nothing, and keeps the record. |
| Reconciler.FinalSeenIsUnion | main.py:99-109 | After any sequence of cycles the record is the initial record plus the union of everything fetched. |
| Reconciler.NoDateAnnouncedTwice | main.py:103-107 | Over any sequence of cycles whose saves all succeed, no announced date was already on record, no two cycles announce a common date, and the dates added to the record are exactly the dates announced. |
| Reconciler.Load | main.py:38-42 | An absent file reads as the empty set. A present file reads as the set it holds. |
| Reconciler.Run | main.py:99-109 | With the store loaded (an absent file reads as empty), a fetch that yields nothing leaves the store untouched, an absent file included. A message is sent exactly when some fetched date is not in the store. The store changes exactly when a message is sent; it then holds the old dates plus the fetched ones, and the message names the fetched dates that were not stored. The stored set never shrinks. |
| Reconciler.FailedFetchChangesNothing | main.py:87-102 | A transport failure, a 4xx/5xx status or an undecodable body sends nothing and leaves the store as it was. |
| Reconciler.RunIdempotent | main.py:99-109 | Running twice against the same reply announces nothing the second time and leaves the store as the first run left it. |
| Reconciler.Scenarios | main.py:99-109 | Four sample cycles: a first sighting, a repeat, a failed fetch, and a partly new fetch. Each gives the expected announcement and record. |
| Fetcher.RaisesForStatus | main.py:89 | `raise_for_status` raises exactly for statuses in the 4xx and 5xx classes. |
| Fetcher.Collect | main.py:93 | The comprehension succeeds exactly when every item has a date. Its result then holds exactly the items' dates and has no more elements than there are items. |
| Fetcher.FetchDates | main.py:87-97 | The empty set unless the status passes `raise_for_status`, the body decodes and has `data`, and every item is dated. In that case, exactly the items' dates. |
| Fetcher.ReportedDatesComeFromReply | main.py:88-93 | A reported date comes from a successful reply in which some item carries it. |
| Fetcher.EmptyReplyLooksLikeFailure | main.py:92-97 | A successful reply with an empty `data` list gives the same result as a transport failure. |
| Signer.BodyDescriptor | main.py:23-28 | The descriptor is `""` for no body, the text itself for a string body, and `"multipart/form-data"` for any other body. |
| Signer.BodyDescriptorCollisions | main.py:23-28 | Two bodies share a descriptor exactly when they are equal, or are no body and the empty text, or are a non-text body and the text `"multipart/form-data"`. |
| Signer.Plaintext | main.py:30 | The plaintext is the timestamp, a `\|`, the path, a `\|` and the descriptor, in that order. Its length is the sum of theirs plus two. |
| Signer.MacInput | main.py:30-33 | The bytes handed to HMAC decode as UTF-8 to `timestamp + "\|" + path + "\|" + descriptor`. |
| Signer.Timestamp | main.py:19 | The timestamp parses back to the clock truncated toward zero and contains no `\|`. |
| Signer.Sign | main.py:18-36 | The returned timestamp reads back as the whole seconds of the clock. The signature is base64 of HMAC-SHA256 under the key, applied to the UTF-8 plaintext built from that timestamp, the URL's path and the body descriptor. |
| Signer.ParsePlaintextRoundTrip | main.py:30 | The plaintext splits back into timestamp, path and descriptor when the path has no `\|`. |
| Signer.PlaintextInjective | main.py:30 | For separator-free timestamps and paths, plaintexts are equal if and only if all three parts are equal. |
| Signer.SignatureDependsOnlyOnKeyAndPlaintext | main.py:30-34 | Requests with equal plaintexts get equal signatures under one key, whatever their scheme, host, query, fragment or body. |
| Signer.SeparatorInPathIsAmbiguous | main.py:21-30 | Path `/a\|b` with body `c` is signed exactly like path `/a` with body `b\|c`. |
| Signer.MacInputDistinguishes | main.py:19-33 | For paths without `\|`, HMAC receives equal bytes if and only if the whole seconds, the paths and the body descriptors are equal. |
| Decimal.Truncate | main.py:19 | `int()` on the clock is the integer toward zero within one second of it. |
| Decimal.NatToDecimal | main.py:19 | `str()` of a natural number is non-empty and all digits. It is `"0"` exactly for 0 and otherwise has no leading zero. |
| Decimal.IntToDecimal | main.py:19 | `str()` of an integer is digits, with a leading `-` exactly for negative numbers. |
| Decimal.NatToDecimalValue | main.py:19 | The digits of `str(n)` denote n. |
| Decimal.ParseIntToDecimal | main.py:19 | Parsing `str(n)` gives back n. |
| Decimal.IntToDecimalInjective | main.py:19 | Distinct integers render as distinct strings. |
| Decimal.ParseIntCanonical | main.py:19 | The only string that parses to n is `str(n)`. |
| Utf8.Encode | main.py:33 | A string of n characters encodes to between n and 4n bytes. ASCII text encodes to its own code points, one byte per character. |
| Utf8.EncodeChar | main.py:33 | A character encodes to 1 to 4 bytes. It is one byte exactly for ASCII, and that byte is the code point. Every byte after the first is a continuation byte. |
| Utf8.DecodeEncodeChar | main.py:33 | The decoder reads back a character's encoding, whatever follows it, and consumes exactly that encoding. |
| Utf8.DecodeEncode | main.py:33 | Decoding the UTF-8 encoding of a string gives back the string. |
| Utf8.EncodeInjective | main.py:33 | Distinct strings have distinct encodings. |
| Notifier.Less | main.py:50 | The order `sorted` uses on strings never relates a string to itself. A proper prefix comes before its extensions. |
| Notifier.LessTransitive | main.py:50 | Python's string order is transitive. |
| Notifier.LessTotal | main.py:50 | Python's string order relates any two distinct strings. |
| Notifier.LessIsNumericOnDigits | main.py:50 | On equal-length digit strings such as `YYYYMMDD`, string order is numeric, so ascending means chronological. |
| Notifier.Least | main.py:50 | Returns an element of a non-empty set that is below every other element. |
| Notifier.SortDates | main.py:50 | `sorted()` lists every date of the set once, in strictly ascending order. |
| Notifier.SortedUnique | main.py:50 | Two strictly ascending listings of the same dates are equal, so the order is determined by the set. |
| Notifier.FormatDate | main.py:50 | An 8-character date renders as 10 characters with dashes at positions 4 and 7. |
| Notifier.FormatDateRoundTrip | main.py:50 | Removing the dashes gives back the original date. |
| Notifier.DateLines | main.py:50 | Each line i is `"- "` followed by the formatted i-th date. |
| Notifier.Join | main.py:50 | Joining no lines gives the empty string. Otherwise the result starts with the first line, and with two or more lines a separator follows it. |
| Notifier.SplitJoin | main.py:50 | Splitting on the newline undoes the newline join, for one or more lines, when no line contains a newline. |
| Notifier.Message | main.py:49-50 | The text starts with the fixed header. For one or more newline-free dates, reading it back lists exactly those dates, in order. |
| Notifier.ReadMessageRoundTrip | main.py:49-50 | Reading back a message lists exactly the dates it was built from, in order. This holds for one or more dates without newlines. |
| Notifier.Notification | main.py:48-50 | The text starts with the fixed header. For a non-empty set of newline-free dates, reading it back gives every date once, in ascending order. |

## Left out

- HTTP: the GET and POST through `requests`, the request headers and query parameters, and the timeouts (main.py:52-53, 58-90). These are network I/O. A reply enters as a `Fetcher.Response` value.
- The outcome of the webhook POST is caught and only logged, so it does not affect the record. It is not modelled.
- File I/O and JSON (de)serialisation of `seen_dates.json` (main.py:38-46) are not modelled. The file is a `Reconciler.Store`. The model does not cover a corrupt file, which makes `json.load` raise and aborts the run. It also does not cover the order in which `list(dates)` writes the set. `save_seen_dates` runs after the message is sent (main.py:105-107), and no `try` covers it. If it raises, for example because the file is not writable or the disk is full, the run aborts after the announcement, and the next run announces the same dates again. Mode `"w"` empties the file before `json.dump` writes, so a dump that fails partway can leave a file that `json.load` rejects on every later run. Two runs that overlap race on the file. The model treats every save as one that succeeds completely and happens all at once, and `Reconciler.NoDateAnnouncedTwice` holds only under that assumption and for runs that do not overlap.
- JSON shapes beyond the one the program expects are abstracted away. These include a top-level value that is not an object, a `data` value that is not a list, and `scnYmd` values that are not strings.
- HMAC-SHA256 and base64 are the `Crypto` parameter, with no properties assumed.
- Signer.Sign: does not state that the signature changes when the timestamp, path or descriptor changes. That needs collision resistance of HMAC, which an abstract function cannot have. `Signer.MacInputDistinguishes` proves the part that holds without it: HMAC's input changes.
- `time.time()` is the `now: real` parameter. Floating-point precision is not modelled.
- `urlparse` is not modelled. The URL arrives already split into its six components, and only `path` is used.
- Configuration from the environment (main.py:11-15) is not modelled. The key is the byte-string parameter of `Sign`, the UTF-8 encoding of the configured secret.
- `print` logging is not modelled.
- Utf8.Encode: does not model lone surrogates, because Dafny's `char` excludes them. A Python `str` can hold them: `os.getenv` decodes non-UTF-8 bytes of `API_URL` with surrogateescape, and a text body is passed through as it is. On such a string `plain.encode('utf-8')` raises `UnicodeEncodeError`. `generate_signature` runs outside the `try` of `fetch_dates` (main.py:59), so the whole run aborts.
- Notifier.FormatDate: requires an 8-character date and models only the slicing. `strptime` normalises some 8-character inputs that slicing renders differently: `"202511 1"` becomes `"2025-11-01"` under `strptime` but `"2025-11- 1"` by slicing, and non-ASCII decimal digits come out as ASCII. It does not model `strptime` calendar validation. If a new date fails `strptime`, the code raises outside the `try` of `send_discord_message` and aborts the run before anything is saved. `Reconciler.Step` does not model that path: it always announces and saves together.
