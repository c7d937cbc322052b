# PID steering and cruise control: a Dafny model

This project models the control core of a PID controller project for a
driving simulator. It has three parts, all written over Dafny's `real`
numbers rather than IEEE doubles.

- `pid.dfy`, module `PidControl`: the `PID` class. It keeps three error
  terms (proportional, integral, derivative), three gains, a symmetric
  output limit, an integrator limit against wind-up, and a flag that records
  whether the integrator was clamped on the last update. `Init`, `SetLimits`,
  `Reset` and `UpdateError` are methods that assign the fields in place.
  `TotalError` is a read-only function. It returns the negated weighted sum
  of the errors, clamped to the output limit. Both clamps share one
  definition, `Saturate`.
- `lookup_table.dfy`, module `LookupTable`: the `LinearInterpolate1D` table,
  a sequence of `(x, y)` points that grows at the end and is sorted by key
  in place. It also holds the `INF` sentinel (`1.0e100`), which the
  controller uses as its default "unbounded" limit. A query clamps to the
  end values outside the key range. Inside the range, a binary lower-bound
  search finds the first key not below `x`, and the query interpolates
  linearly between that entry and the one before it. `Interpolation` is the
  specification of a query. `FirstAtLeast` is the specification of the
  search.
- `driver_helpers.dfy`, module `DriverHelpers`: the pure helpers of the
  simulator driver. These are degree/radian conversion, the `"42"` event
  test, and `hasData`, which extracts the JSON payload from a socket
  message. `hasData` is modelled on `std::string`'s `find`,
  `find_first_of`, `find_last_of` and `substr`, with `npos` and the
  wrap-around of unsigned `size_t` subtraction written out. The module also
  shows how the driver configures its steering and cruise controllers and
  steps them once per telemetry frame.

The update step follows the braced form of the integrator clamp. Above the
limit, the integrator is set to the limit and the flag to true. Below the
negated limit, it is set to the negated limit and the flag to true.
Otherwise the flag is set to false. The text at `src/PID.cpp:41-46` has no
braces and assigns `int_saturated`, a name the class does not declare
(`src/PID.h:25` declares `isIntegratorSaturated`), so it does not compile
as written.

## Model

| member | source | states |
|---|---|---|
| `PidControl.Saturate` | src/PID.cpp:41-46 | for a non-negative limit the result lies in `[-limit, limit]`; it equals the input exactly when the input is in range; otherwise it is one of the two bounds |
| `PidControl.IntegratorLimit` | src/PID.cpp:26 | the integrator limit times `Ki` equals the output limit times the integrator's share, so the limit is the output-domain bound moved into the error domain |
| `PidControl.IntegralTermWithinAuthority` | src/PID.h:23-24 | with `Ki > 0`, an integrator within the derived limit contributes at most `output_limit * share` to the output in magnitude |
| `PidControl.PID.constructor` | src/PID.cpp:9-12 | a new controller has both limits equal to `INF`; the errors and gains start at zero and the flag at false |
| `PidControl.PID.Init` | src/PID.cpp:18-22 | sets exactly the three gains; errors, limits and flag are unchanged |
| `PidControl.PID.SetLimits` | src/PID.cpp:24-27 | requires `Ki != 0`; sets `output_limit` to the given value and `int_err_limit` to `output_lim * int_lim / Ki`; gains, errors and flag are unchanged |
| `PidControl.PID.Reset` | src/PID.cpp:29-33 | derivative and integral become zero and the proportional error becomes the given error; gains, limits and flag are unchanged; the integrator bound then holds for any non-negative limit |
| `PidControl.PID.UpdateError` | src/PID.cpp:35-48 | for `dt > 0`: the derivative is `(cte - old p_error) / dt`; `p_error` becomes `cte`; the integral is the saturated value of `old i_error + cte * dt`; the flag is true exactly when that sum lay outside `[-int_err_limit, int_err_limit]`; when the flag is false the integral is the unclamped sum; for a non-negative limit the integrator ends within it; gains and limits are unchanged |
| `PidControl.PID.TotalError` | src/PID.cpp:50-60 | for a non-negative output limit the command lies within plus or minus that limit, and it equals the raw negated weighted sum exactly when that sum is in range; above the limit it is the limit |
| `LookupTable.FirstAtLeast` | src/LinearInterpolate1D.h:75-77 | the result is at most the table size; every earlier key is below `x`, and the key at the result (if any) is at least `x` |
| `LookupTable.LowerBound` | src/LinearInterpolate1D.h:75-77 | a binary search on a key-sorted table that returns the least index whose key is not below `x`, or the table size |
| `LookupTable.Lerp` | src/LinearInterpolate1D.h:81 | for two points with distinct keys, the line passes through both points, and between the keys its value lies between the two `y` values |
| `LookupTable.InterpolationOnSegment` | src/LinearInterpolate1D.h:75-81 | on a sorted table, whenever `s[i-1].x < x <= s[i].x` the query is the line through `s[i-1]` and `s[i]` at `x` (so the divisor is positive), and the result lies between `s[i-1].y` and `s[i].y` |
| `LookupTable.InterpolationAtKey` | src/LinearInterpolate1D.h:75-81 | querying exactly at a key returns the `y` of the first entry carrying that key (also for duplicate keys and for the first entry) |
| `LookupTable.InterpolationWithinValues` | src/LinearInterpolate1D.h:65-82 | if every `y` in the table lies in `[lo, hi]`, so does every query result, including the clamped ones |
| `LookupTable.SinkIntoPlace` | src/LinearInterpolate1D.h:91-100 | one insertion step: a permutation of its input whose first `i + 1` entries are sorted by key |
| `LookupTable.LinearInterpolate1D.constructor` | src/LinearInterpolate1D.h:57 | a new table is empty |
| `LookupTable.LinearInterpolate1D.AddDatapoints` | src/LinearInterpolate1D.h:85-88 | the table becomes the old table with the point appended at the end |
| `LookupTable.LinearInterpolate1D.SortTable` | src/LinearInterpolate1D.h:91-100 | the table becomes sorted by key and is a permutation (multiset-equal) of its old contents |
| `LookupTable.LinearInterpolate1D.Interpolate` | src/LinearInterpolate1D.h:65-82 | on a non-empty sorted table, returns `Interpolation(table, x)`: above the last key the last `y`, below the first key the first `y`, otherwise the lower-bound result |
| `DriverHelpers.Deg2Rad` | src/main.cpp:14 | the result times 180 is the input times π |
| `DriverHelpers.Rad2Deg` | src/main.cpp:15 | the result times π is the input times 180 |
| `DriverHelpers.ConversionRoundTrip` | src/main.cpp:13-15 | the two conversions undo each other in both orders |
| `DriverHelpers.IsEventMessage` | src/main.cpp:65 | a message is an event exactly when it is longer than two characters and starts with `"42"` |
| `DriverHelpers.SizeT` | src/main.cpp:32 | the `size_t` reduction leaves values in range unchanged and adds 2^64 to negative values above -2^64 |
| `DriverHelpers.Find` | src/main.cpp:25 | `npos` exactly when the pattern occurs nowhere; otherwise the pattern occurs at the result and at no earlier position |
| `DriverHelpers.FindFirstOf` | src/main.cpp:26 | `npos` exactly when the character is absent; otherwise the position of its first occurrence |
| `DriverHelpers.FindLastOf` | src/main.cpp:27 | `npos` exactly when the character is absent; otherwise the position of its last occurrence |
| `DriverHelpers.Substr` | src/main.cpp:32 | the slice of the string from `pos`, of length `count`, or shorter if the string ends first |
| `DriverHelpers.HasData` | src/main.cpp:24-35 | the result is no longer than the message and, when non-empty, starts with `'['` |
| `DriverHelpers.HasDataOfSearches` | src/main.cpp:24-35 | once `find` has found no `"null"` and both bracket searches have found positions, the result is the `substr` from the first `'['` with the `size_t` length `b2 - b1 + 1` |
| `DriverHelpers.HasDataNull` | src/main.cpp:25-30 | a message containing `"null"` anywhere yields `""` |
| `DriverHelpers.HasDataMissingBracket` | src/main.cpp:24-34 | without `"null"`, a message lacking `'['` or `']'` yields `""` |
| `DriverHelpers.HasDataPayload` | src/main.cpp:26-32 | without `"null"`, when the first `'['` precedes or equals the last `']'`, the result is the text between them inclusive, starting with `'['` and ending with `']'` |
| `DriverHelpers.HasDataReversed` | src/main.cpp:26-32 | without `"null"`, when the last `']'` precedes the first `'['`, the unsigned length wraps: adjacent brackets yield `""`, otherwise the suffix from the first `'['` |
| `DriverHelpers.SteerMessage` | src/main.cpp:118 | the steering message is the payload framed by 12 extra characters |
| `DriverHelpers.SteerMessageNoNull` | src/main.cpp:118 | framing a payload that holds no `"null"` yields a message that holds none either |
| `DriverHelpers.SteerMessageRoundTrip` | src/main.cpp:118 | the driver's own steering message is an event, and `HasData` reads back its bracketed part when the payload has no bracket and no `"null"` |
| `DriverHelpers.SetUpControllers` | src/main.cpp:41-57 | the steering controller gets gains (1.0, 0.1, 0.5), output limit 1.0 and integrator limit 2.5; the cruise controller gets gains (0.1, 0.02, 0.0), output limit 1.0 and integrator limit 25 |
| `DriverHelpers.Step` | src/main.cpp:98-99 | one controller's `UpdateError` followed by `TotalError`: the whole post-state of `UpdateError` for the given error, and the returned command is the new `TotalError`, within the output limit |
| `DriverHelpers.ControlFrame` | src/main.cpp:97-105 | one frame runs `UpdateError` on the steering controller with the cross-track error and on the cruise controller with `-(20 - speed)`: each one's derivative, proportional error, saturated integral and flag are given exactly, gains and limits are unchanged, and the returned commands are each one's `TotalError`, within its output limit; both integrators end within their limits |
| `DriverHelpers.SteeringWorkedExample` | src/main.cpp:45-54 | a worked example of the steering configuration, not a cycle the driver performs: after a reset to error 0.2, a 0.1 s cycle with error 0.3 leaves the integrator unsaturated and commands -0.803 |

## Left out

- Network and process I/O: the websocket hub (src/main.cpp:39); within the message handler (src/main.cpp:61-128), the dispatch on the event name and the replies through `ws.send`, including the manual-driving reply (src/main.cpp:69-71, 120, 122-126); the HTTP, connection and disconnection callbacks (src/main.cpp:132-152); `listen` and `run` (src/main.cpp:154-164). The rest of that handler is modelled: the event test (`IsEventMessage`), `hasData` (`HasData`), the controller calls (`ControlFrame`) and the steering message concatenation (`SteerMessage`), which is built but not sent.
- JSON parsing and serialisation and `std::stod` (src/main.cpp:69-75, 114-118): these are foreign library calls. `SteerMessage` takes the serialised JSON object as a parameter.
- Console output (src/main.cpp:109-112, 146, 151).
- Wall-clock timing: the `steady_clock` frame time and the one-shot `sim_initialized` latch (src/main.cpp:17-19, 59, 85-95). The frame time `dt` is a parameter, and `UpdateError` requires `dt > 0`. The first frame after the latch can give a zero `dt`, which the source divides by.
- IEEE double behaviour: rounding, overflow, and the `inf`/`NaN` that a zero `dt` or a zero `Ki` would produce. All arithmetic is exact over `real`. `INF` is the real number `1.0e100`, so the "unbounded" default is a large finite bound, as in the source.
- `M_PI`: π is the decimal literal of `M_PI`, `3.14159265358979323846`, as an exact real; the round trip needs only `PI != 0`.
- PidControl.PID.constructor: the source sets only the two limits and leaves the errors, gains and flag indeterminate. The model starts them at zero and false. The driver never calls `Reset`, so in the source the first `UpdateError` reads an indeterminate `p_error` and `i_error`.
- PidControl.PID.SetLimits: requires `Ki != 0`. The source divides by `Ki` unguarded.
- LookupTable.LowerBound: compares keys only. The source compares each entry as a pair against `(x, -INF)`, which differs only for an entry whose key equals `x` and whose value is below `-1.0e100`.
- LookupTable.LinearInterpolate1D.Interpolate: requires a non-empty table sorted by key. The source reads `table.back()` and `table[0]` unguarded and assumes the table is sorted.
- LookupTable.LinearInterpolate1D.SortTable: private and never called in the source; here it is a public method. The source uses `std::sort`, which is not stable, and the model uses an insertion sort. The contract promises only what `std::sort` promises: sorted by key, and a permutation.
- The declared but undefined `LinearInterpolate1D` constructor and destructor, and the empty virtual destructors (src/LinearInterpolate1D.h:30, 35; src/PID.cpp:14-16): they hold no logic. The model's table constructor gives the empty vector that the member declaration default-constructs.
- DriverHelpers.IsEventMessage: takes the message as a string whose length is the `length` argument; the test reads `data[0]` and `data[1]` directly.
- DriverHelpers.HasData: requires the message to be shorter than `npos`, as every `std::string` is. It takes the string as given and does not model that `std::string(data)` (src/main.cpp:67) stops at the first NUL character before `hasData` sees it. `find_first_of` and `find_last_of` are modelled for the one-character sets the driver uses.
