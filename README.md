# Vanity address search: pattern matcher and search accounting

A Dafny model of the core of a vanity-address generator written in Rust. The
program generates random keypairs, derives each one's account address, tests
the address against user-supplied patterns, and records the keypairs whose
addresses match.

The model covers two parts:

- **The pattern matcher** (`src/patterns.rs`, modules `Text` and `Patterns`).
  `NewPatternMatcher` lower-cases each raw pattern and sorts it into one of
  three groups:
  - a leading `^` makes a prefix rule, with the `^` stripped;
  - otherwise a trailing `$` makes a suffix rule, with the `$` stripped;
  - otherwise the pattern is a contains rule.

  `MatchesAny` rejects anything that is not `0x` followed by 40 hexadecimal
  digits. It then lower-cases the address, drops the `0x`, and asks whether
  some rule holds of the 40-digit body. The constructor is a method with the
  source's loop, proved equal to the specification function `Classify`. The
  matcher is an immutable value, so `MatchesAny` is a function. Calling it
  twice on the same address therefore gives the same result by construction.
- **The search accounting** (`src/main.rs`, module `Search`). The class
  `Counters` holds the `generated` and `matched` counters, the candidates
  handed to the recorder, and the progress reporter's snapshot `prevCount`.
  - `RunTask` is one worker task.
  - `Dispatch` is the `for _ in 0..n_jobs` loop with its queue check.
  - `ReportProgress` is one wake-up of the progress thread.
  - `Finish` produces the final report.
  - `SplitHms` is the hours/minutes/seconds split.
  - `Run` chains them the way `main` does.

  The object invariant `Valid` keeps `matched <= generated <= 2^64 - 1` and
  `prevCount <= generated`. So the progress delta never underflows, and the
  match-rate division only happens when its divisor is positive.

Rules are modelled as literal strings. A literal prefix rule means "the body
starts with the text", a suffix rule "ends with", and a contains rule
"contains". `IsLiteralPattern` states when this agrees with the regular
expression the source compiles: the rule text contains none of the regex
crate's metacharacters. `HexPatternIsLiteral` shows the condition holds for
the configured patterns' shape (`src/main.rs:19-41`): hexadecimal digits,
optionally followed by `$`.

One property holds only with a side condition. Lower-casing the address
before matching changes nothing, unless the address's marker is `0X`. The
format guard accepts only a lower-case `x`, so `0X…` is rejected, while its
lower-cased form may match. `MatchesAnyCaseInsensitive` carries that side
condition, and `UpperMarkerCounterexample` shows it cannot be dropped.

The model follows two behaviours of the code that a reader might not expect:

- `matched` is incremented before the recorder is called
  (`src/main.rs:116-120`).
- Iterations whose queue check fails consume the budget without generating
  anything. So `generated` can fall short of `n_jobs`: `Dispatch` proves
  `generated <= n_jobs`, not equality.

## Model

| member | source | states |
|---|---|---|
| `Text.LowerStr` | src/patterns.rs:27 | lower-casing keeps the length and lower-cases each character in place (ASCII letters only) |
| `Text.LowerStrIsLower` | src/patterns.rs:59 | the result of lower-casing has no capitals; lower-casing is idempotent and leaves lower-case text unchanged |
| `Patterns.ClassifyPattern` | src/patterns.rs:27-40 | the rule compiled from a raw pattern is canonical, its text is lower-case, and putting its anchor back gives exactly the lower-cased pattern, so nothing is lost |
| `Patterns.CanonicalUnique` | src/patterns.rs:29-40 | a canonical rule is determined by its anchored form, so classification is exclusive: no pattern could be read as two different rules |
| `Patterns.ClassifyAnchored` | src/patterns.rs:29-40 | inverse direction of the round trip: classifying a canonical lower-case rule's anchored form gives back that rule |
| `Patterns.ClassificationCases` | src/patterns.rs:29-40 | leading `^`: prefix rule on the pattern minus its first character, even when it also ends in `$`; otherwise trailing `$`: suffix rule on the pattern minus its last character; otherwise: contains rule on the whole lower-cased pattern |
| `Patterns.Group` | src/patterns.rs:26-42 | the texts the loop pushes onto group `k`, in input order: never more than there are patterns, and every one lower-case |
| `Patterns.Classify` | src/patterns.rs:21-49 | the value `new` builds from a pattern list; its three groups together hold exactly one rule per input pattern |
| `Patterns.GroupAppend` | src/patterns.rs:26-42 | each group of a concatenated input is the concatenation of the two inputs' groups |
| `Patterns.GroupSizes` | src/patterns.rs:26-42 | classification is total: the three group sizes add up to the number of input patterns |
| `Patterns.GroupMembership` | src/patterns.rs:26-42 | a text is in group `k` if and only if some input pattern classifies to a rule of kind `k` with that text |
| `Patterns.GroupPosition` | src/patterns.rs:26-42 | pattern `i` contributes its text to its own group at position `GroupIndex(ps, i)` and adds nothing to the other two |
| `Patterns.GroupOrder` | src/patterns.rs:26-42 | within a group, rules keep their patterns' input order |
| `Patterns.NewPatternMatcher` | src/patterns.rs:21-49 | the loop that pushes each lower-cased, anchor-stripped pattern onto its group builds exactly `Classify(patterns)`, whose group sizes add up to the input length |
| `Patterns.IsLiteralPattern` | src/patterns.rs:29-40 | the restriction under which the model's rules agree with the compiled regular expression: the rule text, anchor removed, holds none of the regex crate's metacharacters |
| `Patterns.HexPatternIsLiteral` | src/main.rs:19-41 | a run of lower-case hex digits is a literal contains rule on itself; the same run followed by `$` is a literal suffix rule on the run |
| `Patterns.IsAddress` | src/patterns.rs:5 | `ADDRESS_REGEX`, `^0x[0-9a-fA-F]{40}$`: exactly 42 characters, a lower-case `0x` marker, then 40 hexadecimal digits of either case |
| `Patterns.Body` | src/patterns.rs:59-60 | the address lower-cased with its two-character marker dropped: two characters shorter, each character the lower-cased one two places on in the address, and free of capitals |
| `Patterns.AddressBody` | src/patterns.rs:5-60 | once the format guard passes, the body is 40 lower-case hexadecimal digits |
| `Patterns.RuleMatches` | src/patterns.rs:29-40 | what one compiled literal rule's `is_match` (used at src/patterns.rs:66, 75 and 84) accepts of a body: `^t` starts the body, `t$` ends it, any other `t` occurs somewhere in it |
| `Patterns.AnyMatches` | src/patterns.rs:63-87 | the `iter().any` over one group is true if and only if some text in the group matches the body under that group's rule |
| `Patterns.MatchesAny` | src/patterns.rs:52-90 | false for every input that is not `0x` plus 40 hex digits, whatever the patterns; for a well-formed address, true if and only if the lower-cased body starts with some prefix text, ends with some suffix text, or contains some contains text |
| `Patterns.MatchesAnyClassify` | src/patterns.rs:21-90 | the matcher built from a pattern list accepts an address if and only if it is well formed and the rule of some input pattern holds of its body |
| `Patterns.EmptyMatcherNeverMatches` | src/patterns.rs:89 | a matcher built from no patterns matches no address |
| `Patterns.SinglePattern` | src/patterns.rs:29-40 | for a one-pattern matcher, `^t` tests "body starts with lower(t)", `t$` tests "body ends with lower(t)", other patterns test "body contains lower(t)", and all of them only on well-formed addresses |
| `Patterns.LowerAddress` | src/patterns.rs:54-60 | lower-casing a well-formed address keeps it well formed and keeps its body |
| `Patterns.UnlowerAddress` | src/patterns.rs:54-60 | if the lower-cased string passes the guard and the marker was not `0X`, the original passed it too |
| `Patterns.MatchesAnyCaseInsensitive` | src/patterns.rs:54-60 | lower-casing the address first does not change the result, for every input whose marker is not `0X` |
| `Patterns.UpperMarkerCounterexample` | src/patterns.rs:5 | `0X` followed by 40 zeros is rejected by the guard, while its lower-cased form matches the pattern `0` |
| `PatternExamples.DeadBeefMatcher` | src/patterns.rs:26-48 | `["^dead", "beef$"]` compiles to the prefix rule `dead` and the suffix rule `beef`, with no contains rule |
| `PatternExamples.Scenarios` | src/patterns.rs:52-90 | with `["^dead", "beef$"]`, `0xdeadbeef000…0` matches (prefix) and `0x000…0beef00` does not: `beef` is not at the very end |
| `Search.SplitHms` | src/main.rs:82-85 | `hours*3600 + minutes*60 + seconds == total`, with minutes and seconds below 60 |
| `Search.SplitHmsUnique` | src/main.rs:142-144 | any decomposition with minutes and seconds below 60 that adds up to `total` is the one `SplitHms` computes |
| `Search.Submissions` | src/main.rs:99-104 | the number of the first `n` iterations whose queue check passes: at most `n`, and exactly `n` if and only if every iteration passed it |
| `Search.Hits` | src/main.rs:99-124 | the candidates of submitted iterations whose address matches, in iteration order; its properties are stated by `HitsBound`, `HitsInclude` and `HitsSource` |
| `Search.HitsBound` | src/main.rs:99-127 | the loop submits at most one task per iteration, records at most one hit per submitted task, and every recorded address matches |
| `Search.HitsInclude` | src/main.rs:103-124 | a submitted iteration whose address matches has its candidate among the hits |
| `Search.HitsSource` | src/main.rs:103-124 | every recorded hit is the candidate of an iteration that submitted its task, so with `HitsInclude` the hits are exactly the matching candidates of submitted iterations |
| `Search.ConfiguredJobsFit` | src/main.rs:49 | the configured `n_jobs`, 888,888,888,888,888, is at most `2^64 - 1`, so `Run`'s precondition holds for it |
| `Search.Counters.constructor` | src/main.rs:54-62 | both counters, the recorded hits and the progress snapshot start at zero, which satisfies the invariant |
| `Search.Counters.RunTask` | src/main.rs:104-125 | `generated` grows by exactly 1 whatever the outcome; `matched` grows by 1 exactly when `matches_any` holds, otherwise it is unchanged; a matching candidate is appended to the recorded hits; `matched <= generated` is preserved |
| `Search.Counters.ReportProgress` | src/main.rs:68-85 | the delta is `generated - prevCount` and cannot underflow; afterwards `prevCount == generated` and nothing else changes |
| `Search.Counters.Dispatch` | src/main.rs:99-127 | after `nJobs` iterations with the queue check, `generated` has grown by exactly the number of submitted iterations, which is at most `nJobs`; `matched` has grown by the number of matching submitted candidates, which were recorded in iteration order; the invariant holds throughout |
| `Search.Counters.Finish` | src/main.rs:133-151 | the summary reports the counters and the h/m/s split; the rate is present exactly when `matched > 0`, its divisor `generated` is then positive, and the rate lies in (0, 100] |
| `Search.RatioAtMostOne` | src/main.rs:146-150 | a positive count divided by a count at least as large lies in (0, 1] |
| `Search.Run` | src/main.rs:16-152 | the whole run: `generated` equals the number of submitted iterations (at most `nJobs`); the recorded candidates are exactly the matching submitted ones, each with its private key; `matched == |recorded| <= generated`; the rate is shown exactly when something matched |

## Left out

- Regular-expression semantics: rules are literal strings, so the model only describes patterns that satisfy `IsLiteralPattern`. Examples outside it are `a.b`, `[0-9]` and a prefix rule that keeps a trailing `$` as an anchor. Compile failures (the `unwrap` on `Regex::new`) are left out with it: no literal pattern can fail to compile.
- `Text.LowerStr`: lower-cases ASCII letters only. Rust's `to_lowercase` also handles non-ASCII letters, which no well-formed address and no hexadecimal pattern contains.
- Key generation, address derivation and private keys (`src/generator.rs`): the candidates are an input, `candidateAt`, indexed by dispatch iteration.
- Storage (`src/storage.rs`): the recorder is modelled as appending the candidate to the `hits` sequence. The file format, append-mode I/O and timestamps are not modelled.
- `Search.Counters.RunTask`: a recorder failure is not modelled. In the source the `unwrap` at `src/main.rs:120` then panics while the task still holds the `total_generated` lock taken at line 109, which poisons that mutex: every later task panics at line 109 before counting, the progress thread panics at line 68, and `main` panics at line 133 without printing the summary. The model assumes every write succeeds.
- Concurrency: threads, mutexes, the thread pool and `pool.join()` are not modelled. Tasks run one at a time, to completion, in dispatch order. The pool's queue depth is an input, `queuedAt`, read once per iteration. A concurrent reader that samples `generated` before `matched` can see more matches than generated addresses; the sequential model does not capture that.
- The progress thread's five-second sleep and its endless loop are not modelled: `ReportProgress` is a single wake-up, callable between any two tasks. Clock readings enter as the elapsed-seconds parameter.
- Floating point: the speed `count_diff as f64 / elapsed` is left out. The match rate is computed in exact `real` arithmetic rather than `f64`.
- Console output: the `println!` lines and their formatting are not modelled; only the values they print are.
- Counter width: counters are unbounded naturals that the invariant keeps at or below `2^64 - 1`. Wrap-around is not modelled; `RunTask` and `Dispatch` require room for the increments. `Run` starts from zero with `nJobs <= 2^64 - 1`, which the configured `N_JOBS` (888,888,888,888,888) satisfies (`ConfiguredJobsFit`).
