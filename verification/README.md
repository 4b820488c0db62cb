# Canary runtime helpers in Dafny

A model of two helpers of the synthetic-monitoring canaries, with proofs about
them:

- **Screenshot naming** (`screenshot` in `src/test/canaries/util/runtime.js`).
  Every capture increments a process-wide counter. The new counter value is
  written in decimal and left-padded with `0` to three characters. The
  optional category and value labels are cleaned: `null` becomes empty;
  otherwise the label is trimmed and each `/` becomes `-`. Each label that is
  still non-empty after cleaning is appended. The parts are joined by `-`,
  `.png` is added, and the file lands directly in the screenshot directory.
  Examples: `001.png`, `002-login.png`, `003-login-load.png`.
- **Parameter-store resolver** (`fetchParams`, `Params.get` and
  `arrayFromLines` in `src/test/canaries/util/params.js`). One memo slot holds
  the promise of a single batch request to the parameter store. The request
  asks for every remote name of the name map, with decryption on. The result
  is renamed into local names; when two names map to the same local name, the
  later one wins. `get(name)` looks the local name up, or fails with
  `Invalid parameter name: <name>`. With no names configured, `fetchParams`
  answers an empty result and stores nothing. With more than ten names it
  throws before sending anything, and again on every later call. If the store
  reports any invalid name, or the call to it fails, the error is thrown inside
  the promise's executor: the stored promise is never settled, and no waiting
  `get` call receives a value or that error.

Three modules:

- `Text` (`text.dfy`): the JavaScript string operations the helpers use:
  - `trim`, with ECMAScript's whitespace set;
  - a global single-character `replace`;
  - `split` on one character;
  - `Array.join`;
  - `String(n)`;
  - `padStart`.
- `Screenshot` (`screenshot.dfy`): label cleaning, file naming and the path.
- `Params` (`params.dfy`): the fetch helper as a state machine over the memo
  slot (`None | Pending | Resolved(params) | NeverResolves`), the store's
  answer settling it, `get`, a trace semantics over `get` calls and answer
  arrivals, and `arrayFromLines`.

The remote store, the browser and the clock are not modelled. The store's
answer is an input of the step that settles the slot. The counter is a
parameter, and the screenshot directory is one too.

`params.js` has only the remote name map: there are no local or lazily
computed definitions merged with the fetched values, and a failed fetch never
settles the stored promise.

## Model

| member | source | states |
|---|---|---|
| Text.Trim | src/test/canaries/util/runtime.js:58 | the trimmed string neither starts nor ends with whitespace and is no longer than the input |
| Text.TrimInfix | src/test/canaries/util/runtime.js:58 | trimming only removes whitespace: the result is an infix of the input with only whitespace before and after it |
| Text.TrimUnique | src/test/canaries/util/runtime.js:58 | any trimmed infix surrounded only by whitespace is the result of trimming, so `trim` is fully determined by that description |
| Text.TrimIdempotent | src/test/canaries/util/runtime.js:58 | trimming twice gives the same string as trimming once |
| Text.ReplaceAll | src/test/canaries/util/runtime.js:58 | the global replace keeps the length; every occurrence of the character becomes the replacement and every other character is unchanged; none of the replaced character is left |
| Text.ReplaceKeepsTrimmed | src/test/canaries/util/runtime.js:58 | replacing a character by a non-whitespace one keeps a trimmed string trimmed |
| Text.Split | src/test/canaries/util/params.js:89 | `split` on a character gives at least one piece, and no piece contains the separator |
| Text.SplitJoin | src/test/canaries/util/params.js:89 | the pieces joined back with the separator give the original string |
| Text.Join | src/test/canaries/util/runtime.js:67 | defined by `Array.join`: no parts give the empty string, one part gives itself, and otherwise the first part, the separator and the join of the rest; its use is stated by SplitJoin and Screenshot.JoinParts |
| Text.Decimal | src/test/canaries/util/runtime.js:64 | `String(n)` is a non-empty digit string that starts with `0` exactly when `n` is zero |
| Text.DecimalRoundTrip | src/test/canaries/util/runtime.js:64 | reading the decimal form back gives the number |
| Text.DecimalInjective | src/test/canaries/util/runtime.js:64 | distinct counter values have distinct decimal forms |
| Text.PadStart | src/test/canaries/util/runtime.js:64 | `padStart` reaches the width (never truncating a longer string), ends with the original string and is filled only with the fill character before it |
| Text.LeadingZeros | src/test/canaries/util/runtime.js:64 | zeros put in front of a digit string do not change its value |
| Screenshot.Sanitize | src/test/canaries/util/runtime.js:56-58 | `null` cleans to the empty string; a cleaned label has no `/` and neither starts nor ends with whitespace |
| Screenshot.SanitizeText | src/test/canaries/util/runtime.js:58 | a cleaned string label equals its trimmed form character for character, except that `/` became `-` |
| Screenshot.SanitizeEmpty | src/test/canaries/util/runtime.js:56-58 | a string label cleans to the empty string exactly when it is all whitespace |
| Screenshot.SanitizeKeeps | src/test/canaries/util/runtime.js:56-58 | a trimmed label without `/` is used unchanged |
| Screenshot.SanitizeIdempotent | src/test/canaries/util/runtime.js:56-58 | cleaning a cleaned label changes nothing |
| Screenshot.Number | src/test/canaries/util/runtime.js:64 | defined as the counter's decimal form left-padded with `0` to three characters; its properties are stated by NumberValue and NumberNotTruncated |
| Screenshot.NumberValue | src/test/canaries/util/runtime.js:64 | the padded counter is all digits, at least three long, and reads back as the counter |
| Screenshot.NumberNotTruncated | src/test/canaries/util/runtime.js:64 | from 100 on, the padded counter is the plain decimal form: padding never cuts digits |
| Screenshot.JoinParts | src/test/canaries/util/runtime.js:64-67 | joining the number and the non-empty labels with `-` and adding `.png` gives the number, then `-label` for each non-empty label, then `.png` |
| Screenshot.Filename | src/test/canaries/util/runtime.js:60-67 | the counter goes up by one; the name is the new counter padded, then each non-empty cleaned label after a `-` (category before value), then `.png`; the name contains no `/` |
| Screenshot.FilenameNumber | src/test/canaries/util/runtime.js:64-67 | the digits a file name starts with are the padded new counter value and read back as that value |
| Screenshot.FilenamesDistinct | src/test/canaries/util/runtime.js:32-67 | captures at different counter values never share a file name, whatever their labels |
| Screenshot.DocumentedExamples | src/test/canaries/util/runtime.js:48-53 | starting from the initial counter value 0, the first four captures with the documented labels are named `001.png`, `002-login.png`, `003-login-load.png` and `004-login-error.png` |
| Screenshot.Screenshot | src/test/canaries/util/runtime.js:54-70 | the capture's path is the directory, `/`, and the file name, and there is no `/` after the directory's own |
| Params.FetchParams | src/test/canaries/util/params.js:28-71 | with a stored promise: it is reused and nothing is sent; otherwise no names gives an immediate empty result, more than ten throws the limit error, both storing nothing; one to ten names sends exactly the request for all names with decryption and stores a pending promise |
| Params.Rename | src/test/canaries/util/params.js:57-60 | defined by storing, for each returned parameter in order, its value under the local name its remote name maps to; its properties are stated by RenameDomain, RenameLastWins and RenameKeys |
| Params.RenameDomain | src/test/canaries/util/params.js:57-60 | a local key is present exactly when some returned parameter maps to it, and every key is a configured local name or `undefined` |
| Params.RenameLastWins | src/test/canaries/util/params.js:57-60 | the value under a key is that of the last returned parameter mapped to it |
| Params.RenameKeys | src/test/canaries/util/params.js:57-60 | when only configured names are returned, every key is a configured local name |
| Params.Settle | src/test/canaries/util/params.js:44-66 | only a pending slot changes; it resolves with the renamed parameters exactly when the call succeeded without invalid names, and otherwise never settles |
| Params.Lookup | src/test/canaries/util/params.js:79-82 | a value is returned exactly when the name is a key, and it is the stored value; otherwise the error is `Invalid parameter name: ` and the name |
| Params.Get | src/test/canaries/util/params.js:75-83 | defined as one fetch followed by the lookup: a thrown limit error rejects the call, an immediate result or a resolved slot is looked up, and any other slot leaves the caller waiting; its properties are stated by GetOutcome |
| Params.GetOutcome | src/test/canaries/util/params.js:75-83 | a value is only ever returned from a resolved slot and is the stored value; with no names the call is rejected as an unknown name, with more than ten it is rejected with the limit error; while the fetch is pending or never settles the caller waits |
| Params.Step | src/test/canaries/util/params.js:28-83 | defined as one event: a `get` call either waits on the stored promise or is answered at once; a store answer settles the slot and, when it resolves a pending promise, answers the waiting callers in the order they called |
| Params.Execute | src/test/canaries/util/params.js:28-83 | defined as the events taken in order, collecting the requests sent and the answers delivered; the lemmas below state its properties |
| Params.AtMostOneRequest | src/test/canaries/util/params.js:28-71 | over any sequence of calls and answers at most one request is sent, none once the slot holds a promise, and a stored promise is never dropped |
| Params.RequestsAskForAllNames | src/test/canaries/util/params.js:44-49 | every request sent asks for exactly the configured remote names, with decryption |
| Params.FirstCallSends | src/test/canaries/util/params.js:32-49 | with one to ten names, any sequence containing a call sends exactly one request and leaves a promise stored |
| Params.RacingCallersShareOneFetch | src/test/canaries/util/params.js:28-76 | callers racing before the answer send one request, for all configured names, and all wait on it in the order they called |
| Params.PendingCallersWait | src/test/canaries/util/params.js:69-76 | callers arriving while the request is in flight send nothing and join the waiting callers, in order |
| Params.PendingAnswer | src/test/canaries/util/params.js:65-82 | a successful answer stores the renamed parameters and wakes every waiting caller, in order, with the lookup in that one result |
| Params.EmptyMapNeverFetches | src/test/canaries/util/params.js:35-38 | with no names nothing is sent or stored, and every call is rejected at once, in call order, with the unknown-name error naming the name that caller asked for |
| Params.TooManyNamesAlwaysThrows | src/test/canaries/util/params.js:41-42 | with more than ten names nothing is sent or stored, and every call is rejected with the limit error |
| Params.InvalidAnswerNeverResolves | src/test/canaries/util/params.js:49-55 | an answer listing invalid names, or a failed call, leaves the promise unsettled and wakes no caller |
| Params.NeverResolvesIsFinal | src/test/canaries/util/params.js:44-69 | once the promise can never settle, nothing more is sent and no call is ever answered |
| Params.ResolvedIsFinal | src/test/canaries/util/params.js:69-82 | once resolved, the stored parameters never change, nothing more is sent, and every later call is answered at once, in call order, with the lookup of the name that caller asked for |
| Params.ArrayFromLines | src/test/canaries/util/params.js:88-90 | every element is non-empty, has no surrounding whitespace and contains no line feed |
| Params.ArrayFromLinesInOrder | src/test/canaries/util/params.js:88-90 | the elements are exactly the lines that are non-blank after trimming, trimmed, in their original order |
| Params.TrimAll | src/test/canaries/util/params.js:89 | `map(trim)` keeps the number of lines and trims each line in place |
| Params.DropEmpty | src/test/canaries/util/params.js:89 | `filter` keeps only non-empty strings, each one taken from the input |
| Params.DropEmptyInOrder | src/test/canaries/util/params.js:89 | the filter keeps exactly the non-empty strings, in order |
| Params.DropEmptyAppend | src/test/canaries/util/params.js:89 | the blank-line filter works piece by piece: filtering two runs of lines one after the other gives the two filtered runs one after the other |

## Left out

- The browser call `page.screenshot` and its promise: only the path it is given is modelled.
- The discovery of the screenshot directory (`/tmp`, or a `tmp/screenshots` folder found from the module search paths): the directory is a parameter.
- `getPage`, `Logger`, `envRequire` and the logging calls in both files: they are I/O with no effect on the values modelled.
- Screenshot.Filename: the counter is an unbounded natural number. JavaScript numbers lose integer precision above 2^53, which no canary run reaches.
- Screenshot.Sanitize: labels are `null` or strings. An omitted label is the empty string, the parameter's default. A label of another type makes `trim` throw before the counter moves; that case is not modelled.
- Text.Trim: the whitespace set is ECMAScript's WhiteSpace and LineTerminator with the Unicode 15 space separators. A runtime on a later Unicode version could trim more.
- Params.FetchParams: the request's names are a set. The order `Object.keys` gives them in is not modelled.
- Params.Get: with no names configured, the immediate result is an empty array, which has one own property, `length`. `get('length')` then returns `0`; the model rejects every name instead.
- Params.Rename: a returned name that is missing from the name map is stored under the key `undefined`, which is modelled. A returned name such as `toString`, which JavaScript finds on the map's prototype, is not modelled. A local name `__proto__` is also not modelled: assigning a string to it does not create a key. A local name `hasOwnProperty` is not modelled either: when the store returns it, the stored string hides the method that `get` calls, so every later `get` throws a `TypeError`, while the model's lookup returns the value.
- Params.Lookup: `hasOwnProperty` is taken to be the built-in own-key test. The shadowing case under Params.Rename, where it is not, is not modelled.
- Params.Settle: an invalid-name answer, or a failed call to the store, throws inside the promise's async executor. That throw is an unhandled rejection, which by default ends a Node process and fails a Lambda invocation; nothing in these files installs a handler for it. The model keeps only its effect on the resolver: the stored promise never settles.
- The asynchronous scheduling itself: the model processes `get` calls and store answers one at a time, in any order a sequence of events gives. Concurrency beyond that interleaving is not modelled.
- The store answering with more parameters than were asked for is allowed by the model. It is not excluded, because the code does not check it.
