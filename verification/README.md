# RandomInt generator, modelled in Dafny

`RandomInt.Generator` hands out integers from random.org's HTTP API and falls
back to `System.Random` when the daily quota runs low or the previous call
was too recent. This project models its source-selection policy.

The static class becomes one Dafny class, `RandomInt.Generator`, whose fields
are the static state: `Quota`, `LastCheckedQuota`, `LastUsedApi`,
`Initialized` and `PublicIP`. Its methods `GetQuota`, `InitializeClient`,
`NextSet` and `Next` update those fields in place.

The collaborators become inputs:

- The clock counts milliseconds since `DateTime.MinValue`, so `LastUsedApi`
  starts at 0. The source reads it twice in a call that reaches the
  service: before deciding (`now`, Generator.cs:48, 137) and after the
  reply has arrived (`received`, Generator.cs:60, 155). Both readings are
  arguments, and nothing is assumed about the gap between them.
- The transport's answer is a `reply` argument: `Received(body)` or
  `Failed(reason)`.
- Each operation returns `sent`, the request it made. The URL is modelled by
  its query parameters only. `sent == None` means the transport was not
  called.
- The host's address list is an argument.
- `System.Random.Next` is a method (`RandomInt.RandomNext`) that returns some
  value in its documented range.

The pure parts are functions with lemmas:

- clamping of the arguments;
- `int.Parse`/`int.TryParse` of a decimal int32 (`IntParse`);
- the response handling: split on `'\n'`, drop empty lines, parse every line
  (`Response`).

`scenarios.dfy` drives the class through a few uses, relying on its
contracts alone: initialization without an address, a low quota, a remote
batch followed by a call inside the cooldown, and a malformed quota body.

Behaviour of the code that the model keeps as written:

- **Cooldown test.** The 10 ms cooldown uses `<=`, and the quota threshold
  is `Quota <= 2n` after `n` is clamped to [1, 10000].
- **Threshold in `Next`.** `Next` calls `NextSet` with the default count of
  10. Its threshold is therefore 20 (`RandomInt.NextThreshold`).
- **Empty remote result in `Next`.** `Next` returns the first of those
  values. An empty remote body makes `results?[0]` throw an index error
  (`Err(IndexOutOfRange)`, `RandomInt.EmptyBodyIndexError`). The
  `?? LocalGenerator.Next(...)` fallback can
  never run, because `NextSet` never returns null, and the model has no
  such branch.
- **`LastUsedApi` before parsing.** `LastUsedApi` is set as soon as a body
  arrives. The LINQ query is only enumerated afterwards, so a body whose
  lines do not all parse still advances `LastUsedApi`, and the call fails
  with no partial result.
- **`LastCheckedQuota` before parsing.** `LastCheckedQuota` is also set
  before the quota body is parsed. A malformed body advances it while
  `Quota` stays as it was.
- **Length and range never checked.** The number of remote values is never
  compared with `n` (`RandomInt.CountNotChecked`), and the values are not
  checked against `[min, max]` either: the code trusts the service, and any
  int32 values in the body come back as they are.
- **Local draws.** On the local path each value comes from
  `Next(lo, hi + 1)`. When the clamped `lo == hi + 1`, every value is `lo`.
  When `lo > hi + 1`, the generator throws `ArgumentOutOfRangeException`,
  which the model returns as `Err(ArgumentOutOfRange)`.
- **Failed re-initialization.** A failed `InitializeClient` leaves
  `Initialized` as it was: an already initialized client stays initialized.
  Nothing ever sets it back to false.
- **`Next` asks for a batch.** `Next` does not request a single value. It
  requests the default batch of 10 and indexes the result.

## Model

| member | source | states |
|---|---|---|
| RandomInt.Generator.constructor | Generator.cs:18-32 | the static initial state: quota 0, last quota check at start-up, last API use at the earliest time, not initialized |
| RandomInt.Clamp | Generator.cs:133-135 | `Math.Clamp` returns a value inside [lo, hi] and leaves values already inside unchanged |
| RandomInt.ClampIsNearest | Generator.cs:133-135 | the clamped value is the point of [lo, hi] nearest the input |
| RandomInt.ClampedArguments | Generator.cs:133-137 | after clamping, min and max lie in [-1e9, 1e9], n lies in [1, 10000], and n*2 and max+1 cannot overflow an int32 |
| RandomInt.FirstIPv4Index | Generator.cs:40 | the position found holds an IPv4 entry and no entry before it is IPv4; it is the length of the list when there is none |
| RandomInt.FirstIPv4 | Generator.cs:40 | the chosen address is IPv4 and is the entry at the first IPv4 position; none is chosen exactly when the list has no IPv4 entry |
| RandomInt.RandomNext | Generator.cs:142 | `Random.Next(minValue, maxValue)` fails exactly when minValue > maxValue; otherwise it returns minValue if the bounds are equal and a value of [minValue, maxValue) if not |
| RandomInt.FillLocal | Generator.cs:139-145 | the local fill loop yields exactly n values, each a possible draw of `Next(lo, hi + 1)`, or the generator's range error when lo > hi + 1 |
| RandomInt.LocalValuesInRange | Generator.cs:133-145 | with clamped bounds every local value lies in [-1e9, 1e9], and in [lo, hi] whenever lo <= hi |
| RandomInt.Decide | Generator.cs:133-137 | the local path is taken exactly when quota <= 2n or at most 10 ms passed since the last API use (clamped n); both paths carry the clamped count and bounds, so a request stays within the service's limits and is only made while the quota exceeds twice the count |
| RandomInt.RemoteStaysRemote | Generator.cs:137 | more quota, a later call or a smaller count never turns a call to the service into a local draw |
| RandomInt.NextThreshold | Generator.cs:125-137 | with the default n = 10 the local path is taken exactly when quota <= 20 or at most 10 ms passed |
| RandomInt.RemoteResult | Generator.cs:151-166 | on the remote path a transport failure propagates as is with no local fallback; a received body succeeds exactly when all its non-empty lines parse, and otherwise fails as unparsable naming one of its lines |
| RandomInt.CountNotChecked | Generator.cs:147-161 | whatever count the request carried, a body with any other number of int32 values yields exactly those values |
| RandomInt.First | Generator.cs:107 | `results?[0]` succeeds exactly on a non-empty success and gives its first value; a failure propagates and an empty array is an index error |
| RandomInt.EmptyBodyIndexError | Generator.cs:105-107 | an empty remote body is an empty success, so `Next` fails with an index error instead of falling back |
| RandomInt.RefreshQuota | Generator.cs:43-75 | the request is skipped exactly while a negative quota is under 60 000 ms old; the quota only changes to a value parsed from a received body; a success returns the quota left behind; the check time moves only when a request was sent, and then to the time the reply arrived |
| RandomInt.QuotaThrottle | Generator.cs:46-52 | a negative quota checked less than 60 000 ms ago is returned as cached, with no request and no state change |
| RandomInt.QuotaFetch | Generator.cs:54-74 | otherwise the quota endpoint is asked for the public IP; a transport failure changes nothing and propagates; any body sets the check time to the time the reply arrived; a numeric body becomes the quota and is returned; another body fails with the quota unchanged |
| RandomInt.Generator.GetQuota | Generator.cs:43-75 | the new quota, check time, result and request are those of the quota refresh on the old state; the other fields are unchanged |
| RandomInt.Generator.InitializeClient | Generator.cs:77-83 | no IPv4 address: fails, no request, no change; otherwise stores that address and refreshes the quota, and becomes initialized exactly when the refresh succeeds; initialization is never undone |
| RandomInt.Generator.NextSet | Generator.cs:125-167 | not initialized: fails with no request and no change; local path: no request, no state change, n local draws; remote path: requests the clamped parameters, a transport failure propagates with no fallback, a body sets LastUsedApi to the time the reply arrived and is parsed whole; quota, check time and initialization never change |
| RandomInt.Generator.Next | Generator.cs:98-108 | not initialized: fails with no request and no change; otherwise behaves as NextSet with n = 10 and returns its first value: one local draw, or the first remote value, or the propagated failure |
| IntParse.ParseInt32 | Generator.cs:62 | `int.TryParse`/`int.Parse` accept only int32 values |
| IntParse.ParseFormat | Generator.cs:62 | every int32 written in decimal parses back to itself |
| IntParse.WhitePaddingIgnored | Generator.cs:62 | white space around a number never changes what it parses to, so a trailing newline or carriage return is accepted |
| IntParse.RejectsWords | Generator.cs:62-69 | "not-a-number", the empty string and a lone sign do not parse |
| IntParse.RejectsOutOfRange | Generator.cs:62 | every numeral outside the int32 range fails to parse rather than wrapping or clamping |
| IntParse.RejectsOverflow | Generator.cs:62 | 2147483648, one past the largest int32, does not parse |
| Response.Split | Generator.cs:157 | `Split('\n')` yields at least one piece |
| Response.SplitPiecesLackSeparator | Generator.cs:157 | no piece of the split contains the separator |
| Response.JoinSplit | Generator.cs:157 | joining the pieces with the separator gives back the body |
| Response.SplitJoin | Generator.cs:157 | splitting pieces joined by the separator gives back the pieces |
| Response.NonEmpty | Generator.cs:159 | the `line.Length > 0` filter yields only non-empty lines and never more lines than it was given |
| Response.NonEmptyKeeps | Generator.cs:159 | a line survives the filter exactly when it is one of the input lines and is non-empty |
| Response.NonEmptyAppend | Generator.cs:159 | the filter distributes over concatenation, so it keeps the lines in order |
| Response.ParseAll | Generator.cs:159-161 | the lines parse as a whole or not at all: success exactly when every line parses, with one value per line in order; otherwise the error names a line that does not parse |
| Response.ParseResponse | Generator.cs:157-161 | the body succeeds exactly when every non-empty line parses and then gives those lines' values in order; otherwise the error names a non-empty line that does not parse, and no partial result is returned |
| Response.ParseRender | Generator.cs:157-161 | a body of int32 values, one per line, parses back to exactly those values in order |

## Left out

- HTTP: `HttpClient`, `Client ??= new HttpClient()`, `GetStringAsync` and URL
  text (Generator.cs:16, 54, 79, 148-149, 153) are network I/O. A request is
  modelled by its parameters and the reply is an argument.
- The URL query's `col=1` and `format=plain` are constants, and the model
  does not carry them. `numberBase` only travels in the request, because
  parsing is always decimal.
- DNS: `Dns.GetHostAddressesAsync` (Generator.cs:38) is a foreign call, so
  its result is an argument. A failure of the lookup itself is not
  modelled.
- `System.Random` internals (Generator.cs:28, 142): only the range of each
  draw is modelled, not its distribution.
- `async`/`Task` and concurrent callers are not modelled: every operation
  is sequential.
- Clock: each `DateTime.UtcNow` reading is an integer millisecond argument
  (`now` before a request, `received` after its reply).
  `TotalMilliseconds` is a fraction in the source, and sub-millisecond
  differences are not modelled.
- Exception types and messages (Generator.cs:34, 69, 102, 129) become
  `Error` cases. The "Failed to get parsable result" `HttpRequestException`
  and `int.Parse`'s `FormatException`/`OverflowException` are all
  `Unparsable`.
- Transport failures: a timeout (`TaskCanceledException`, which the
  `catch (HttpRequestException)` blocks at Generator.cs:71 and 163 do not
  catch) and other transport failures (`HttpRequestException`) are both
  `Transport(reason)`; only `reason` tells them apart.
- IntParse.ParseInt32: culture-specific signs and `int.Parse`'s tolerance
  of trailing NUL characters are not modelled. The invariant culture is
  assumed.
- RandomInt.Generator.NextSet: the returned `int[]` is a sequence in the
  model. The array is fresh in the source and never shared, so no aliasing
  is lost.
