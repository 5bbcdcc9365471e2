# LoL skin randomizer: the League client connection, modelled in Dafny

The program picks a random skin or chroma for the champion a player has
locked in. It talks to the League client's local HTTPS API
(the "LCU"). This project models the core of `src/lcu.rs`:

- **Credential discovery** (`build_wmic_wmi`), module `Discovery`.
  - It chooses whose process-query output to scan: `wmic` first, else PowerShell.
  - It extracts the port and the auth token with the patterns
    `--app-port=([0-9]+)` and `--remoting-auth-token=([\w-]+)`.
  - Matching is leftmost-first, and each capture group is greedy.
- **The session client** (`GameClient::{new, build_client, retry, status, build_url}`),
  module `LcuClient`, class `GameClient`.
  - The fields `port`, `auth_token`, `auth_token_encoded` and `client` are updated in place.
  - The token is encoded with standard padded Base64 (section 4 of RFC 4648), module `Base64`.
  - `Base64.Decode` is proved to invert the encoding.
- **The two selection workflows** (`set_skin`, `set_chroma`), module `Selection`.
  - The API's answers are inputs.
  - The random choice is an index into the candidate list.
  - Every run returns how it ended together with the requests it made, in order.
  - So "nothing was submitted" and "no later step ran" can be stated directly.
- **The colour parse** at the end of `set_chroma`, module `HexColor`.
  - All leading `#` are removed, then Rust's `u32::from_str_radix(_, 16)` is applied.
- **Shared pieces**: `Results` (`Option`, `Result`) and `Text` (`trim_start_matches` for one character).

### Behaviour of the code worth knowing (the model follows the code)

- `build_client` is not atomic.
  - A failed discovery changes nothing.
  - But `port`, `auth_token` and `auth_token_encoded` are written before
    `ClientBuilder::build()?`, so a builder error leaves new credentials next to the old client.
- The colour is a `u32`, not a 24-bit RGB value.
  - Eight hex digits up to `FFFFFFFF` are accepted.
  - A `+` sign is accepted after the `#`s.
- `status()` only needs a response, whatever its HTTP status.
  - The same holds for the `my-selection` PATCH.
  - Only a transport failure counts as an error.
- PowerShell's exit status is never checked. Only its failure to spawn is an error.
- When `wmic` exits successfully, its output is final, even if it holds no credentials.
- An empty `colors` list makes `set_chroma` panic at `colors[0]`.
  - This happens after the selection has already been submitted.
  - The model has an explicit `Panicked` ending for it.

## Model

| member | source | states |
|---|---|---|
| Text.TrimStart | src/lcu.rs:109 | the result is a suffix of the input and does not start with the trimmed character |
| Text.TrimStartRemovesOnly | src/lcu.rs:109 | everything removed is the trimmed character |
| Text.TrimStartIdempotent | src/lcu.rs:109 | trimming a trimmed string changes nothing |
| Text.TrimStartAbsorbs | src/lcu.rs:109 | one more leading copy of the character makes no difference |
| Discovery.RunLength | src/lcu.rs:29-30 | the length of the maximal run of the class starting at an index: every character in it is in the class, and the next one is not (greedy `+`) |
| Discovery.LeftmostMatch | src/lcu.rs:63-65 | the first index at which the flag followed by a class character occurs, and no index before it matches; None when none matches |
| Discovery.Capture | src/lcu.rs:63-65 | no capture iff the pattern matches nowhere; otherwise a non-empty greedy run captured right after the leftmost match |
| Discovery.CapturedIsUnique | src/lcu.rs:63-65 | the capture is determined: a maximal run at the leftmost match is exactly what the regex returns |
| Discovery.ExtractCredentials | src/lcu.rs:63-77 | the port is looked for first ("Port not found"), then the token ("Auth token not found"); on success both are the captured, non-empty runs of their classes |
| Discovery.ExtractFromCommandLine | src/lcu.rs:29-30 | a command line `--app-port=<digits> --remoting-auth-token=<token>...` yields exactly that port and token |
| Discovery.PortCapturedFirst | src/lcu.rs:29 | a port flag at the start of the line is captured up to the following space |
| Discovery.TokenCapturedAfter | src/lcu.rs:30 | the token flag cannot match inside the port part of the line, so its leftmost match is the real one |
| Discovery.NoTokenFlagInHead | src/lcu.rs:29-30 | at no index of `--app-port=<digits> ` does the token flag start |
| Discovery.QueryOutput | src/lcu.rs:45-60 | `wmic`'s stdout if it spawned and exited successfully; otherwise PowerShell's stdout whatever its exit status, or PowerShell's spawn error |
| Discovery.BuildWmicWmi | src/lcu.rs:28-78 | the output choice's error, or the extraction from the chosen output |
| Discovery.WmicSuccessIsFinal | src/lcu.rs:45-49 | once `wmic` succeeds, PowerShell cannot change the result, even when `wmic`'s output holds no credentials |
| Discovery.DiscoverySucceedsIff | src/lcu.rs:45-77 | discovery succeeds iff an output is obtained and both patterns match somewhere in it |
| Base64.DigitValue | src/lcu.rs:118-119 | the value of a character of the alphabet of section 4 of RFC 4648 is below 64 |
| Base64.DigitValueInverse | src/lcu.rs:118-119 | the alphabet character of a character's value is that character |
| Base64.DigitRoundTrip | src/lcu.rs:118-119 | each of the 64 values has an alphabet character whose value it is |
| Base64.Encode | src/lcu.rs:118-119 | the output has 4 characters per started group of 3 bytes |
| Base64.EncodeAlphabet | src/lcu.rs:118-119 | every output character is from the alphabet or the padding `=` |
| Base64.DecodeEncode | src/lcu.rs:118-119 | decoding the encoding gives back the bytes |
| Base64.Utf8 | src/lcu.rs:119 | the UTF-8 bytes of the string: between 1 and 4 bytes per character |
| Base64.CodePointRoundTrip | src/lcu.rs:119 | one character's bytes announce their own length in the leading byte and decode back to the character |
| Base64.CodePointPrefixFree | src/lcu.rs:119 | no character's bytes are a prefix of another's |
| Base64.Utf8Injective | src/lcu.rs:119 | the bytes determine the string, so the token is recoverable from the header |
| LcuClient.HeaderValueFromStr | src/lcu.rs:124-126 | `HeaderValue::from_str` accepts exactly strings of visible ASCII, tab or non-ASCII characters, unchanged |
| LcuClient.AuthorizationHeaderIsValid | src/lcu.rs:121-127 | `"Basic " + Base64("riot:" + token)` is accepted for every token, so that `?` never fires |
| LcuClient.AuthorizationHeaderCarriesToken | src/lcu.rs:116-127 | decoding what follows `Basic ` gives back the UTF-8 bytes of `riot:<token>` |
| LcuClient.Url | src/lcu.rs:108-111 | `build_url` on the client's port: the origin, the port, one `/`, then the path with all its leading `/` removed |
| LcuClient.UrlIgnoresLeadingSlashes | src/lcu.rs:108-111 | an extra leading `/` on the path gives the same URL |
| LcuClient.EncodeAuthToken | src/lcu.rs:118-119 | Base64 of `riot:<token>`, which decodes back to the bytes of `riot:<token>` |
| LcuClient.AuthenticatedClient | src/lcu.rs:121-134 | the client sends `Basic <encoded>` and, accepting the self-signed certificate, gets a response for every URL on the port the API listens on, and only there |
| LcuClient.GameClient.Status | src/lcu.rs:96-99 | `status` holds only when the API runs and the client accepts its certificate |
| LcuClient.RespondsIffSamePort | src/lcu.rs:96-99 | for all-digit ports and a client that accepts the certificate, a probe gets a response iff the discovered port is the one the API listens on |
| LcuClient.OnlineAfterBuild | src/lcu.rs:96-99 | after a successful rebuild, `status` holds iff the API listens on the discovered port |
| LcuClient.DefaultClientIsOffline | src/lcu.rs:79-99 | the default client, which rejects the self-signed certificate, never gets a response |
| LcuClient.GameClient.constructor | src/lcu.rs:79-94 | default fields, then one `build_client`: on discovery failure everything stays empty; otherwise the discovered credentials, with the authenticated client only if the builder succeeds |
| LcuClient.GameClient.BuildClient | src/lcu.rs:113-136 | discovery error: that error, nothing changed; otherwise port, token and Base64 token written; client replaced with the authenticated one, or left old with the builder's error |
| LcuClient.GameClient.Retry | src/lcu.rs:101-106 | while `status` holds: `Ok` and nothing changed; otherwise exactly `build_client`'s result and new state |
| HexColor.ParseColor | src/lcu.rs:339 | the parse after all leading `#` are removed: a 32-bit value, and none for a colour made only of `#` (or empty) |
| HexColor.HexDigitValue | src/lcu.rs:339 | the value below 16 of a hex digit of either case |
| HexColor.ParseU32Hex | src/lcu.rs:339 | success iff, after one optional `+`, a non-empty string of hex digits of value at most 2^32-1 remains; the value is then that number |
| HexColor.HexChar | src/lcu.rs:339 | a hex digit whose value is the given one |
| HexColor.ToHex | src/lcu.rs:339 | a non-empty string of hex digits |
| HexColor.HexValueOfToHex | src/lcu.rs:339 | `ToHex` is a right inverse of the digit-string value |
| HexColor.HexValueSnoc | src/lcu.rs:339 | one more digit shifts the value one hex place |
| HexColor.HashesTrimmed | src/lcu.rs:339 | any number of leading `#` is removed before parsing |
| HexColor.OneHashParsed | src/lcu.rs:339 | after a single `#` the rest is parsed as it stands |
| HexColor.ParseHexRoundTrip | src/lcu.rs:339 | every 32-bit value written in hex, with or without `+`, parses back to itself |
| HexColor.ParseColorRoundTrip | src/lcu.rs:339-340 | every 32-bit value written in hex, after any number of `#` and with or without `+`, parses back to itself |
| HexColor.WidthIsThirtyTwoBits | src/lcu.rs:339 | `#FFFFFFFF` parses to 2^32-1 and `#100000000` fails |
| HexColor.SignRules | src/lcu.rs:339 | `#+ff` is 255; `#`, `+` and `-1` fail |
| HexColor.ExampleColors | src/lcu.rs:339-344 | `#AABBCC` is 0xAABBCC; `zzzzzz` fails |
| Selection.Submitted | src/lcu.rs:261 | the id carried by a `my-selection` request of the run; none iff no such request was made |
| Selection.SubmittedIsFirst | src/lcu.rs:261 | that id is the first `my-selection` request's |
| Selection.Pick | src/lcu.rs:255-256 | the chosen element is one of the candidates, and any index below the length can choose any candidate |
| Selection.SkinCandidates | src/lcu.rs:241-253 | exactly the inventory skins whose id is pickable, as (id, name), never more than the inventory |
| Selection.SkinCandidatesAppend | src/lcu.rs:250-253 | the filter keeps inventory order (it distributes over concatenation) |
| Selection.SetSkin | src/lcu.rs:217-268 | offline: the error after the `/help` probe alone; each failing read: its fixed message with the later requests not made; no candidates: "No skins available!" after exactly the five reads, and no submission; a submission is the last request and carries a pickable inventory id; success iff every step succeeds, returning the submitted candidate's name |
| Selection.SubmittedAfterRequests | src/lcu.rs:261 | the id submitted after a sequence of reads is the PATCH's |
| Selection.EverySkinCanBeChosen | src/lcu.rs:255-267 | for every random index, the candidate it picks is submitted; its name is returned when the PATCH goes through, "Failed changing skin!" otherwise |
| Selection.RosterEntry | src/lcu.rs:288-293 | (selected skin, champion) of the first team member with the caller's summoner id, (0, 0) when none has it |
| Selection.FindSkin | src/lcu.rs:309-316 | the index of the first skin that lists the chroma id (or has the skin id), none iff no skin does |
| Selection.OwnedChromas | src/lcu.rs:318 | exactly the owned chromas of the list |
| Selection.OwnedChromasAppend | src/lcu.rs:318 | the filter keeps order and repetitions: it distributes over concatenation |
| Selection.OwnedChromasOf | src/lcu.rs:317-320 | the owned chromas of the skin found, empty when none was found |
| Selection.ChromaCandidates | src/lcu.rs:309-327 | every candidate is an owned chroma of some inventory skin |
| Selection.ChromaCandidatesCases | src/lcu.rs:312-327 | the owned chromas of the first skin listing the selected id; if it has none (or no skin lists it), the owned chromas of the first skin with that id |
| Selection.SetChroma | src/lcu.rs:270-345 | offline, summoner, session and roster failures with their messages and requests; the inventory is fetched for the caller's champion; no candidates: "No chroma available!" after the four reads; the submitted id is an owned candidate, and after a successful PATCH that chroma's first colour decides the ending; the colour is parsed only after a successful submit, yielding "Chroma Randomized!" and a 32-bit value |
| Selection.ColorEnding | src/lcu.rs:338-344 | after the submit: a panic exactly when `colors` is empty, otherwise "Invalid color format" or "Chroma Randomized!" with a 32-bit value |
| Selection.EveryChromaCanBeChosen | src/lcu.rs:328-344 | for every random index, the chroma it picks is submitted; then a failed PATCH gives "Failed setting chroma", an empty colour list panics, an unreadable first colour gives "Invalid color format", and a readable one is returned |
| Selection.SkinScenario | src/lcu.rs:241-261 | pickable {10, 11} against skins 10 "A", 11 "B", 12 "C": candidates (10, "A"), (11, "B"), and 12 is never submitted |
| Selection.NoSkinScenario | src/lcu.rs:255-259 | pickable {99} against skins 10 and 11: "No skins available!" and no submission |
| Selection.ChromaScenario | src/lcu.rs:312-340 | selected 20 listed as an owned chroma coloured `#AABBCC` of skin 10: chroma 20 submitted, colour 0xAABBCC returned |
| Selection.OnlyChromaIsCandidate | src/lcu.rs:309-320 | a skin with one owned chroma, selected by that chroma's id, makes it the only candidate |
| Selection.ChromaFallbackScenario | src/lcu.rs:322-327 | no skin lists 20, skin 20 owns chromas 21 and 22: exactly those are the candidates |
| Selection.MalformedColorScenario | src/lcu.rs:333-344 | a chroma coloured `zzzzzz` is submitted, and then "Invalid color format" is returned |

## Left out

- Spawning `wmic` and `powershell` is OS I/O. Their outcomes (spawn error, or exit status and stdout) are inputs. `String::from_utf8_lossy` is taken as already applied.
- Discovery.InClass: `\w` in the token pattern is Unicode-aware in Rust. The model accepts only ASCII letters, digits, `_` and `-`, so a token with non-ASCII word characters is cut shorter than Rust would cut it. When the character right after `--remoting-auth-token=` is itself a non-ASCII word character, the model finds no match at that index at all: it takes a later occurrence of the flag or reports "Auth token not found", where Rust captures at that index.
- `Regex::new(...)?` cannot fail for the two constant patterns, so that error path is not modelled.
- HTTP and TLS (reqwest) and JSON (serde) in the `call_*` methods are not modelled.
  - Each call is an input that either answers with a decoded value or fails (`Transport` or `Decode`).
  - Whether a request gets a response is a predicate of the API's listening port and of whether the client accepts the self-signed certificate.
  - Timeouts and the content of responses to `/help` are not modelled.
- `ClientBuilder::build` succeeds or fails as an input. The model does not look into why it fails.
- Selection.Pick: `thread_rng().choose` is uniform. The model takes the random index as an argument, so it proves that every candidate can be chosen but not that the choice is uniform.
- Ids are `i32` in `src/models.rs` and `i64` in `src/lcu.rs`. They are modelled as unbounded integers because nothing computes with them.
- `src/models.rs` passthrough JSON fields are dropped. Only the fields the logic reads are kept.
- `src/main.rs` (the fltk window, the channel, the mutex, the threads and the one-second timer) is not part of this model. Its tick only calls `status` and then `retry`, which are modelled.
- The `dbg!` and `println!` output, including the debug print in `GameClient::new`, is not modelled.
