# Retry with exponential backoff, in Dafny

The repository implements one algorithm three times: retry with exponential
backoff. There is a Rust version (`retry_fn` and `retry_fn_mut`), a C version
(`retry_fn`) and a Go version (`ExponentialBackOff`). Each calls a fallible
zero-argument operation up to a budget of times and stops at the first
success. After every failure it sleeps, and the delay doubles from one failure
to the next. Rust and C sleep for `time_unit * power`, where `power` starts at
1 and is shifted left after each failure. Go sleeps for `2^i * d`.

This project models the three executors and proves what they return and what
they do. How they do it is left to the proofs.

- **The operation is an oracle.** For Rust `Fn`, C and Go it is a sequence:
  entry `i` is what call `i` returns. For Rust `FnMut` it is a step function
  `S -> (S, Result<T, E>)` that threads the captured state from call to call.
  The C model also has a second oracle: the sequence of `usleep` outcomes.
- **Sleeping is an event.** Each executor returns `Run(outcome, trace)`. The
  trace holds `Call` events and `Sleep(duration)` events, in order. A sleep
  records the duration that was requested.
- **Two models of each executor.**
  - `Expected` is a declarative model. It finds the first call that ends the
    loop (`Search.FirstWhere`) and builds the trace from `Trace.FailedRounds`.
  - A method mirrors the source statement by statement. Its loop invariants
    prove that it returns exactly what `Expected` returns.
- **Lemmas state the properties of `Expected`.** They cover the number of
  calls and sleeps, which result is returned, how long each sleep is, and what
  an empty budget does.
- **One delay calculator.** Module `Backoff` computes the delay for all three
  versions. Each version has its own policy:
  - Rust: `time_unit * power`.
  - C: `power * time_unit` in `unsigned int`, so the product wraps.
  - Go: `2^i * d`.

Modules: `Backoff`, `Search` and `Trace` are shared. There is one module per
source file: `RustRetry` (rust/src/main.rs), `CRetry` (c/retry.c and
c/retry.h) and `GoBackoff` (go/retry.go). `Parity` compares the three versions.

## Where the code and its comments differ

The model follows the code in two places where the source's own comments
promise something else.

- **Sleeping after the last failure.** The comment on `ExponentialBackOff`
  (go/retry.go:9-10) says it sleeps "between each failed attempt". Line 17
  sleeps after every failed call, the last one included. Rust
  (rust/src/main.rs:36) and C (c/retry.c:23) do the same. An all-fail run of
  `n` calls therefore sleeps `n` times, not `n - 1`.
- **The multiplier is not always 2^i.** The comment at c/retry.c:22 says the
  loop snoozes for 2^i * time_unit. Rust and C keep the multiplier in a 32-bit
  unsigned `power` advanced by a plain `power << 1` (rust/src/main.rs:28,37;
  c/retry.c:30), so it drops to 0 from the 33rd sleep on. In C the product
  `power * time_unit` at c/retry.c:23 is also unsigned, so it wraps modulo
  2^32 (`CRetry.SecondUnitWrapsAtFourteenthSleep`). Go computes 2^i as a float
  instead (go/retry.go:17).

## Model

| member | source | states |
|---|---|---|
| `Backoff.PowerClosedForm` | rust/src/main.rs:16-37 | The multiplier for the i-th sleep is 2^i mod 2^32: it is 2^i for the first 32 sleeps and 0 after that. |
| `Backoff.Shl1IsDoublingMod` | c/retry.c:30 | `power << 1` on a 32-bit unsigned value is doubling modulo 2^32: the top bit is lost. |
| `Backoff.Delay` | rust/src/main.rs:27 | The duration of the i-th sleep for each version: Rust `time_unit * power` (rust/src/main.rs:27,36), C `power * time_unit` modulo 2^32 (c/retry.c:23) and Go 2^i·d (go/retry.go:17), where `power` is the shifted multiplier `Backoff.Power`. `Backoff.DelayAgreement` and the three sleep-schedule lemmas state its properties. |
| `Backoff.DelayAgreement` | go/retry.go:17 | For the first 32 sleeps, Rust's `time_unit * power` equals Go's 2^i·d. C's wrapped product also equals it while 2^i·unit fits 32 bits. From the 33rd sleep on, the Rust and C delays are 0. |
| `Trace.FailedRoundsShape` | rust/src/main.rs:27-37 | After k failed calls the trace has 2k events. Calls and sleeps alternate, with a sleep after every failed call. There are k calls and k sleeps, and the i-th sleep has the policy's i-th delay. |
| `Trace.SucceededAfter` | rust/src/main.rs:30-34 | A successful call after k failures adds one call and no sleep. |
| `RustRetry.Expected` | rust/src/main.rs:13-44 | `NoAttempts` is returned exactly when the budget is 0. An `Ok` result carries the value of some call within the budget. With a positive budget, an error result is `RetryFailed` of the last call's error. |
| `RustRetry.RetryFn` | rust/src/main.rs:13-44 | The loop as written returns the same result and trace as the declarative model. This covers the first call outside the loop, `for _ in 1..attempts`, the sleep and shift after each failure, and the final match. It asks that each sleep performed fits a `Duration`; the source panics otherwise. |
| `RustRetry.RetryFnMut` | rust/src/main.rs:46-76 | The `FnMut` loop threads the operation's state from call to call. It returns the same outcome and trace as `retry_fn` on the results the operation produces. It leaves the operation in the state reached after one step per call made, which the caller sees afterwards (rust/src/main.rs:156-159). |
| `RustRetry.RetryFnMutLoop` | rust/src/main.rs:62-75 | The `for _ in 1..attempts` loop of `retry_fn_mut`, entered after a failed first call: it ends with the same outcome and trace as the declarative model and with the state after one step per call. |
| `RustRetry.ResultsThreadState` | rust/src/main.rs:62-63 | Call i of an `FnMut` operation sees the state left behind by the i calls before it. |
| `RustRetry.ZeroBudget` | rust/src/main.rs:18-20 | `attempts == 0` returns `Err(NoAttempts)`, with no call and no sleep. |
| `RustRetry.FirstSuccessWins` | rust/src/main.rs:22-34 | If call k is the first `Ok(v)`, the result is `Ok(v)` after exactly k+1 calls and k sleeps. That call is the last event. |
| `RustRetry.LastErrorReported` | rust/src/main.rs:30-43 | If all calls fail, the result is `RetryFailed` of the LAST call's error. There are `attempts` calls and `attempts` sleeps, and a sleep is the last event. |
| `RustRetry.SleepSchedule` | rust/src/main.rs:27-37 | The i-th sleep lasts `time_unit * (2^i mod 2^32)`, and it is 0 from the 33rd sleep on. |
| `RustRetry.CallBudget` | rust/src/main.rs:13-38 | There are at most `attempts` (≤ 255) calls. The result is `Ok` iff some call within the budget succeeds. There is one sleep per call, except after a successful last call. |
| `CRetry.Succeeded` | c/retry.h:13-15 | The operation contract: a return code of 0 is success and any other code is failure. |
| `CRetry.Expected` | c/retry.c:8-33 | A budget below 1 returns `ERR_NO_ATTEMPTS` with an empty trace. Otherwise the returned code is either the code of some call within the budget or the `errno` of some failed `usleep`. |
| `CRetry.RetryFn` | c/retry.c:8-33 | The C loop as written returns the same code and trace as the declarative model. This covers the early return on 0, the `usleep` failure returning `errno`, and the last rc after the loop. |
| `CRetry.UnitsAreMicroseconds` | c/retry.h:3-6 | `MICROSECOND` is 1, `MILLISECOND` is 1000 of them and `SECOND` is 1000 milliseconds. |
| `CRetry.NoAttemptsSentinel` | c/retry.c:13-14 | `attempts < 1`, negative values included, returns `ERR_NO_ATTEMPTS` with no call and no sleep. Under the "0 = success" contract that code reads as failure. |
| `CRetry.FirstZeroReturned` | c/retry.c:18-20 | The first call that returns 0 makes the function return 0 at once. There are k+1 calls and k sleeps, and that call is the last event. |
| `CRetry.LastCodeReturned` | c/retry.c:16-32 | If every call fails and every `usleep` succeeds, the last call's non-zero rc is returned. There are `attempts` calls and `attempts` sleeps. |
| `CRetry.SleepFailureReturnsErrno` | c/retry.c:23-27 | If a `usleep` fails, `errno` is returned at once, and no call follows. |
| `CRetry.SleepRequests` | c/retry.c:22-30 | The i-th sleep requests `((2^i mod 2^32) * time_unit) mod 2^32` microseconds. The request always fits an unsigned int. |
| `CRetry.CallBudget` | c/retry.c:16 | There are never more calls than `attempts`, and none when it is below 1. A 0 result means some call within the budget returned 0. |
| `CRetry.SentinelIsAmbiguous` | c/retry.h:9 | Two runs both return -1: a budget of 0 with no call, and a one-call run whose call returned -1. |
| `CRetry.SecondUnitWrapsAtFourteenthSleep` | c/retry.c:23 | With `time_unit = SECOND`, the 13th sleep is still 2^12 s. The 14th sleep requests 3897032704 µs instead of 2^13 s, because the product wraps. |
| `GoBackoff.Expected` | go/retry.go:11-25 | A count of 0 or below returns nil with an empty trace. A nil result after a positive count means some call returned nil. A non-nil result records the count and wraps the last call's error. |
| `GoBackoff.ExponentialBackOff` | go/retry.go:11-25 | The Go loop as written returns the same value and trace as the declarative model. The trailing `return nil` is reached only when `retries <= 0`. |
| `GoBackoff.NonPositiveIsSuccess` | go/retry.go:20-24 | `retries <= 0` returns nil, which means success, with no call and no sleep. |
| `GoBackoff.FirstNilReturned` | go/retry.go:13-16 | If call k is the first to return nil, the function returns nil after k+1 calls and k sleeps. |
| `GoBackoff.LastErrorWrapped` | go/retry.go:13-21 | If all calls fail, the returned error wraps the LAST error and records `retries`. There are `retries` calls and `retries` sleeps. |
| `GoBackoff.SleepSchedule` | go/retry.go:17 | The i-th sleep lasts 2^i·d. |
| `GoBackoff.CallBudget` | go/retry.go:13-24 | There are at most `retries` calls. The result is nil iff the count is not positive or some call returned nil. A nil result with no call happens exactly when `retries <= 0`. |
| `Parity.EmptyBudgetDisagrees` | rust/src/main.rs:18-20 | On an empty budget the three versions disagree. Rust returns `NoAttempts`, C returns -1 (a failure) and Go returns nil (a success). None of them calls the operation. |
| `Parity.SameCallsAndSleeps` | rust/src/main.rs:22-38 | Give the three versions the same operation and a positive budget, with every C `usleep` succeeding. They make the same number of calls and sleeps, and they agree on success. |
| `Parity.SameEarlyDelays` | go/retry.go:17 | With the same time unit, Rust and Go sleep equally long for the first 32 sleeps. After that the Rust sleeps are 0, while a Go sleep with a positive unit stays positive as long as 2^i·unit fits an int64. |

## Left out

- Real sleeping (`thread::sleep`, `usleep`, `time.Sleep`) is not modelled. Each sleep is a trace event with its requested duration. Whether a `usleep` fails, and which `errno` it leaves, is an oracle input.
- The demo drivers are out of scope. In rust/src/main.rs that is `main`, `rand_even_num`, `rand_odd_num` and `print_res`; c/main.c is left out entirely. They only draw random numbers, print, and call the executors.
- The `Fn`/`FnMut` difference is a borrow-checker capability, not behaviour. It is modelled as a stateless oracle versus a state-threading one. Nothing runs concurrently.
- The oracle sequences must cover the budget (`attempts <= |f|`). A shorter sequence does not describe a callable operation.
- The panic of `time_unit.mul(power)` when the product overflows `Duration` is not modelled as behaviour. `RustRetry.RetryFn` and `RustRetry.RetryFnMut` instead require, through `DelaysFit`, that each sleep the run performs fits.
- GoBackoff.ExponentialBackOff: the delay is the exact integer 2^i·d. The `math.Pow` float value, its conversion to `Duration` and int64 overflow are not modelled. The model matches the source only while 2^i·d fits an int64.
- GoBackoff.Expected: the `fmt.Errorf` message text is not modelled. The error is the structured value `Wrapped(retries, lastErr)`.
- `errno` after a failed `usleep` is modelled as a positive code, as POSIX error numbers are. Which code `usleep` picks, such as EINTR or EINVAL, is part of the oracle.
- `time_unit` is a count of nanoseconds for Rust, microseconds for C (`unsigned int`) and nanoseconds for Go (an `int`, so it may be negative).
