# Dashboard helper hooks and string formatters, in Dafny

This project models the non-presentational core of a React dashboard shell:

- **Formatters** (`formatters.dfy`): `truncateText`, `capitalizeFirstLetter` and
  `slugify`, as functions on strings (`seq<char>`). `slugify` is modelled as its
  six rewrite steps (lower-casing, then five `replace` calls), each a recursive
  function. The lemmas prove what a slug is: only `[a-z0-9_-]`, no `--`, no
  hyphen at either end. Apart from hyphens, a slug holds exactly the word
  characters of the lower-cased text, in order. The lemmas also prove that
  `slugify` is idempotent and that its fixed points are exactly the slugs.
  The steps that rewrite runs are pinned down by laws. Each step splits
  over a concatenation whose seam does not fall inside a run. A white-space
  run and a hyphen run each become one hyphen, and the filter keeps exactly
  the word characters and the hyphens. So a run of white space between two
  slugs becomes one hyphen, and white space at either end leaves no hyphen
  behind.
- **UseAsync** (`use_async.dfy`): the `useAsync` hook's state record.
  - It has four statuses and three flags that always agree with the status.
  - `execute` is split at its `await` into `Begin` and `Settle`.
  - The class `AsyncOperation` keeps the state and a ghost history of steps.
  - Its invariant says the state is the replay (`Run`) of that history.
  - Lemmas about `Run` show that the last `Settle` always wins. Nothing guards against
    overlapping calls, so a stale result can overwrite a newer one, and
    `isLoading` can be false while a call is still running.
- **UseLocalStorage** (`use_local_storage.dfy`): the `useLocalStorage` hook.
  - A `Storage` object is a map from keys to strings, updated in place.
  - `PersistedValue` holds the in-memory value, a reference to the store chosen by
    the storage type, and whether its `storage` event listener is installed.
  - JSON is a `Codec` (a serializer and a parser that can fail) assumed lawful:
    serialized text is never empty and parses back to the value.
  - Whether `getItem` throws, whether the write throws and whether an updater throws are inputs to the operation concerned.
- **UseMediaQuery** (`use_media_query.dfy`): the breakpoint table as a function from
  breakpoint and width to a boolean, and the class `ResponsiveFlag` for the hook's
  `matches` flag. The flag is `false` until the effect runs. The effect then sets it
  from the query at the current width, and after that it follows change events.

`wrappers.dfy` holds the `Option` type used for JavaScript's `null`.

In three places the code behaves differently from what a caller might expect. The model follows the code in each:

- `useMediaQuery` does not read the query when it is created. The flag is `false` on the first render and is set only when the effect runs.
- `useAsync` with `immediate` starts its call in the mount effect, not at creation. The hook is created idle, and `Mount` writes the pending state.
- An unparseable `storage` event value is not caught: `JSON.parse` throws out of the handler. The value is left unchanged either way.

## Model

| member | source | states |
|---|---|---|
| Formatters.TruncateText | formatters.ts:47-50 | text that fits is returned unchanged; a longer text gives its first max(maxLength, 0) characters followed by `...`; every result starts with the kept prefix of the text |
| Formatters.TruncateLengthBound | formatters.ts:47-50 | the result is at most max(maxLength, 0) + 3 long, and it is shorter than the text exactly when the text is longer than that |
| Formatters.TruncateIdempotent | formatters.ts:47-50 | truncating a truncated text with the same bound changes nothing |
| Formatters.TruncateCanLengthen | formatters.ts:49 | for a non-negative bound, a text one or two characters over it comes back longer than it went in |
| Formatters.CapitalizeFirstLetter | formatters.ts:52-55 | the empty string gives the empty string; otherwise the length is kept, index 0 is upper-cased and the rest is unchanged |
| Formatters.CapitalizeIdempotent | formatters.ts:52-55 | capitalising twice equals capitalising once; the first character changes only in case; a lower-case first letter becomes upper-case |
| Formatters.Lower | formatters.ts:59 | each character is lower-cased in place; no upper-case ASCII letter remains |
| Formatters.HyphenateSpaces | formatters.ts:60 | the result is no longer than the input, and input without white space is unchanged |
| Formatters.HyphenateSpacesAppend | formatters.ts:60 | text split at a seam that is not inside a white-space run is rewritten piece by piece |
| Formatters.HyphenateSpacesRun | formatters.ts:60 | a whole non-empty run of white space becomes exactly one hyphen |
| Formatters.HyphenateSpacesAlphabet | formatters.ts:60 | no white space remains; every character is a hyphen or comes from the input; lower-case input stays lower case |
| Formatters.KeepWordChars | formatters.ts:61 | only word characters and hyphens remain, all from the input; from lower-case input only `[a-z0-9_-]` remains; input of word characters and hyphens is unchanged |
| Formatters.KeepWordCharsAppend | formatters.ts:61 | the filter works character by character: it splits over any concatenation |
| Formatters.KeepWordCharsSingle | formatters.ts:61 | a single word character or hyphen is kept, and any other character is dropped |
| Formatters.CollapseHyphens | formatters.ts:62 | no `--` remains; the first character is kept; input without `--` is unchanged |
| Formatters.CollapseHyphensAppend | formatters.ts:62 | text split at a seam that is not inside a hyphen run is collapsed piece by piece |
| Formatters.CollapseHyphensRun | formatters.ts:62 | a whole non-empty run of hyphens becomes exactly one hyphen |
| Formatters.CollapseHyphensAlphabet | formatters.ts:62 | every character of the result comes from the input, so slug characters stay slug characters |
| Formatters.TrimLeadingHyphens | formatters.ts:63 | the result is a suffix of the input that does not start with a hyphen and everything cut off is hyphens |
| Formatters.TrimTrailingHyphens | formatters.ts:64 | the result is a prefix of the input that does not end with a hyphen, and everything cut off is hyphens |
| Formatters.HyphenateSpacesKeepsWordChars | formatters.ts:60 | replacing white space keeps the word characters exactly, in order |
| Formatters.KeepWordCharsKeepsWordChars | formatters.ts:61 | apart from hyphens, what the filter keeps is exactly the input's word characters, in order |
| Formatters.CollapseHyphensKeepsNonHyphens | formatters.ts:62 | collapsing runs drops hyphens only: the other characters are kept in order |
| Formatters.TrimLeadingKeepsNonHyphens | formatters.ts:63 | trimming at the start drops hyphens only |
| Formatters.TrimTrailingKeepsNonHyphens | formatters.ts:64 | trimming at the end drops hyphens only |
| Formatters.Slugify | formatters.ts:57-65 | apart from hyphens, the slug is exactly the word characters of the lower-cased text, in order |
| Formatters.SlugifyIsSlug | formatters.ts:57-65 | every output holds only `[a-z0-9_-]`, contains no `--` and neither starts nor ends with a hyphen |
| Formatters.SlugIsFixedPoint | formatters.ts:57-65 | each of the rewrite steps leaves a slug unchanged |
| Formatters.SlugifyIdempotent | formatters.ts:57-65 | `slugify(slugify(s)) == slugify(s)` |
| Formatters.SlugifyFixesExactlySlugs | formatters.ts:57-65 | `slugify(s) == s` if and only if `s` is a slug |
| Formatters.SlugifySeparatedWords | formatters.ts:57-65 | two non-empty slugs with a run of white space between them give the two slugs joined by exactly one hyphen |
| Formatters.SlugifyTrimsSpaces | formatters.ts:57-65 | a non-empty slug with white space before and after it gives the slug itself, with no hyphen at either end |
| UseAsync.IdleState | useAsync.ts:17-24 | the initial state is idle, with no data and no error, and its flags agree with its status (all false) |
| UseAsync.PendingState | useAsync.ts:30-37 | the state written before the await is pending, well-formed, with `isLoading` the only flag set |
| UseAsync.SettledState | useAsync.ts:41-58 | a resolution writes success with the value as data; a rejection writes error with the reason; both well-formed |
| UseAsync.Step | useAsync.ts:30-58 | whatever the prior state, a begin writes the pending state and a settle writes the settled state; the result is well-formed |
| UseAsync.ArgsToUse | useAsync.ts:28 | a call's own arguments are used when at least one was given, otherwise those captured at creation |
| UseAsync.Run | useAsync.ts:17-59 | every state reached from a well-formed state is well-formed, and after any step the status is no longer idle |
| UseAsync.LastSettleWins | useAsync.ts:39-59 | whatever happened before, the state after a settle is the one that settle writes |
| UseAsync.StaleResultOverwritesNewer | useAsync.ts:26-59 | with two overlapping calls, the first call settling last overwrites the second call's result |
| UseAsync.PendingImpliesInFlight | useAsync.ts:30-59 | when every settle answers an earlier begin, a pending status means some call is in flight |
| UseAsync.LoadingClearedWhileCallInFlight | useAsync.ts:30-59 | the converse fails: after two begins and one settle a call is in flight while `isLoading` is false |
| UseAsync.AsyncOperation.constructor | useAsync.ts:12-24 | the hook starts idle with an empty history, keeping `immediate` and the captured arguments |
| UseAsync.AsyncOperation.Begin | useAsync.ts:27-37 | writes the pending state, appends a begin step and returns the arguments chosen by `ArgsToUse` |
| UseAsync.AsyncOperation.Settle | useAsync.ts:39-60 | writes the settled state from any prior state, appends the settle step, and returns the outcome to the caller: the value, or the rejection that is rethrown |
| UseAsync.AsyncOperation.Mount | useAsync.ts:65-69 | with `immediate` a call begins with the captured arguments; without it the state and history are unchanged |
| UseLocalStorage.GetItem | useLocalStorage.ts:19 | the stored string when the key is present, null otherwise |
| UseLocalStorage.InitialValue | useLocalStorage.ts:16-27 | the initial value is either `initialValue` or what a present, non-empty stored string parses to |
| UseLocalStorage.InitialValuePrefersStored | useLocalStorage.ts:19-21 | a readable, non-empty, parseable entry is used instead of `initialValue` |
| UseLocalStorage.InitialValueFallsBack | useLocalStorage.ts:19-26 | a failed read, a missing key, an empty string or an unparseable entry all give `initialValue` |
| UseLocalStorage.ReadAfterWrite | useLocalStorage.ts:16-41 | after a successful write of `v`, a newly created binding for that key starts at `v` |
| UseLocalStorage.ValueToStore | useLocalStorage.ts:34-35 | a function argument is applied to the current value; a literal is used as it is |
| UseLocalStorage.AfterStorageEvent | useLocalStorage.ts:52-56 | after an event the value is either unchanged or the parse of a non-empty new value for this key; an event for this key whose non-empty new value parses sets the value to that parse |
| UseLocalStorage.StorageEventFilter | useLocalStorage.ts:53 | events for another key, with a null key, or with a null or empty new value leave the value unchanged |
| UseLocalStorage.CrossContextSync | useLocalStorage.ts:52-56 | an event carrying the serialization of `v` for this key brings the value to `v` |
| UseLocalStorage.PersistedValue.constructor | useLocalStorage.ts:11-27 | picks localStorage or sessionStorage by type, starts from `InitialValue` of the stored item, writes nothing back and installs no listener yet |
| UseLocalStorage.PersistedValue.SetValue | useLocalStorage.ts:31-46 | the value is set in memory before the write; a successful write stores its serialization under the key only; a failed write leaves the store unchanged and keeps the new value; a throwing updater changes nothing |
| UseLocalStorage.PersistedValue.Mount | useLocalStorage.ts:49-58 | the listener is installed exactly when the store is localStorage |
| UseLocalStorage.PersistedValue.Unmount | useLocalStorage.ts:59 | the listener is removed and the value is kept |
| UseLocalStorage.PersistedValue.OnStorageEvent | useLocalStorage.ts:52-56 | an installed listener applies `AfterStorageEvent`; without one the value is unchanged |
| UseMediaQuery.QueryOf | useMediaQuery.ts:5-12 | xs is the only max-width query, at 639px, one below sm; every other breakpoint is a min-width query between 640 and 1536px |
| UseMediaQuery.BreakpointPredicates | useMediaQuery.ts:5-12 | xs is width ≤ 639; sm, md, lg, xl and 2xl are width ≥ 640, 768, 1024, 1280 and 1536 |
| UseMediaQuery.XsSmComplementary | useMediaQuery.ts:6-7 | every integer width matches exactly one of xs and sm |
| UseMediaQuery.MinWidthBreakpointsNest | useMediaQuery.ts:7-11 | 2xl implies xl, xl implies lg, lg implies md and md implies sm |
| UseMediaQuery.BreakpointsMonotone | useMediaQuery.ts:5-12 | widening the viewport can only switch a min-width breakpoint on and xs off |
| UseMediaQuery.ResponsiveFlag.constructor | useMediaQuery.ts:15 | the flag is false before the effect runs |
| UseMediaQuery.ResponsiveFlag.Mount | useMediaQuery.ts:17-25 | the flag becomes the breakpoint's predicate at the current width and the change listener is installed |
| UseMediaQuery.ResponsiveFlag.OnChange | useMediaQuery.ts:21-23 | while the listener is installed, the flag takes the event's value |
| UseMediaQuery.ResponsiveFlag.Unmount | useMediaQuery.ts:26 | the listener is removed and the flag keeps its value |

## Left out

- `formatDate`, `formatRelativeTime`, `formatNumber`, `formatCurrency` and `formatPercentage` (formatters.ts:4-44) wrap date-fns and `Intl.NumberFormat`. Those are foreign libraries over dates and floating point.
- Formatters.Lower, Formatters.CapitalizeFirstLetter: case mapping is ASCII only; other characters are left as they are. JavaScript's full Unicode mapping can change a string's length (`"ß".toUpperCase()` is `"SS"`). It can also turn a non-ASCII letter into an ASCII word character, which slugify would then keep.
- Strings are sequences of Unicode characters, not UTF-16 code units. So `charAt(0)` of a character outside the Basic Multilingual Plane is not modelled.
- Formatters.TruncateText: `maxLength` is an integer. Fractional, `NaN` and infinite bounds are not modelled.
- JSON itself: `JSON.stringify`/`JSON.parse` are the abstract `Codec`, assumed lawful. A serialization failure (a cyclic value, a BigInt) is folded into the write-failure input of `SetValue`.
- UseLocalStorage.PersistedValue.SetValue: an updater reads the value as of the last render in React. Two calls within one render both see that older value. The model applies calls one after the other.
- React mechanics: re-renders, `useCallback` identity, effect re-runs when the key, the arguments or the breakpoint change, and double effects in strict mode. `Mount`/`Unmount` stand for one run of each effect and its cleanup.
- The wrapped asynchronous function and the scheduling of promises. The outcome of a call is the input to `Settle`. That each `Settle` answers an earlier `Begin` is stated over traces (`Paired`), not enforced on the class.
- Browser event dispatch. Events are method inputs. The writes another browsing context makes to the shared store are not modelled; the event carries the new value. The value a `change` event carries is an input, not computed from a width.
- Blocked storage: the hook reads `window.localStorage` or `window.sessionStorage` (useLocalStorage.ts:11-13) outside its `try`. When that access throws, the hook throws. The model always receives both store objects; its read-failure input covers only `getItem` (useLocalStorage.ts:19).
- Default arguments: `immediate` defaults to `true` (useAsync.ts:14) and `storageType` to `'localStorage'` (useLocalStorage.ts:8). In the model both are required parameters of the constructors.
- UseMediaQuery: widths are whole pixels. A fractional viewport width between 639 and 640 (under zoom) matches neither xs nor sm.
- `console.error` logging, the presentational components, the route table and the animation presets.
