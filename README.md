# monoplay core, modelled in Dafny

monoplay is a small browser synthesizer. The sound is a formula such as
`f(x[40..300]=100, y[1..100], …)=…` that is compiled to a WebAssembly `fill`
function; every formula argument gets a knob, and turning a knob writes the
knob values back into the formula's argument list. This project models the
plain logic inside that app and proves what it promises:

- `sound.dfy` (module `Sound`, src/components/Sound.tsx): the `split` and
  `insert` string helpers, the argument-list entries and their separators, the
  patch that replaces the old argument list of the formula text and moves the
  caret, the knob creator, the knob collection, the effect that upserts a knob
  for every argument, and the effect that collects the knob values.
- `helpers.dfy` (module `Helpers`, src/helpers.ts): the value cell
  `HookState`, the flag state machine `AsyncContext`, the Map-backed keyed
  collection `useCollection`, and `Ref`.
- `lib_wat.dfy` (module `FillKernel`, src/lib.wat.ts): the text generator of
  the `$fill` WebAssembly function, a reader that recovers the parameter and
  argument lists from generated text, and the loop the text describes, as a
  method over an array of f32 slots.
- `util.dfy` (module `RegexSource`, src/util.ts): the regular-expression
  builders `join`, `split` and `modify`, each regular expression modelled by
  its pattern string.
- `js_string.dfy` (module `JsString`): the JavaScript built-ins the code is
  written with: `slice` with clamping and negative indices, `indexOf`,
  `split` on one character, and `join`.
- `wrappers.dfy` (module `Wrappers`): `Option`.

Objects whose fields the source updates are classes (`HookState`,
`AsyncContext`, `Collection`, `Ref`, the knob store `KnobStore`, the
component state `SoundState`, the focused `Element`, the WebAssembly
`Instance`); the string code is functions and lemmas.

The model follows the code as written, including:
- knobs of arguments that are no longer in the formula are never removed;
- an argument without a default starts at 1, whatever its range;
- an aborted deferred patch step returns without resolving, so its promise
  never settles;
- an empty old argument list is found by `indexOf` at offset 0, so the new
  list is put in front of the whole text.

The knob store `Sound.KnobStore` has the get-or-create and upsert semantics
of `useCollection` (`Helpers.Collection`), but it is a class of its own: the
knob creator is not a pure function, since it allocates a value cell or calls
`set` on the previous knob's cell, and the store tracks which cells its knobs
own so that a creator's update touches exactly one of them.

## Model

| member | source | states |
|---|---|---|
| JsString.SliceIndex | src/components/Sound.tsx:61-63 | `slice` places an index within `[0, n]`: a non-negative index is kept up to `n`, a negative one counts back from the end and stops at 0 |
| JsString.Slice | src/components/Sound.tsx:61-63 | `x.slice(a, b)` is no longer than `x`, and within bounds it is `x[a..b]` |
| JsString.SliceFrom | src/components/Sound.tsx:61-63 | `x.slice(a)` is the text from the clamped index |
| JsString.IndexOf | src/components/Sound.tsx:189-192 | `indexOf` returns -1 or a position in range where `sub` occurs |
| JsString.IndexOfFirst | src/components/Sound.tsx:192 | `indexOf` finds the first occurrence; -1 means `sub` occurs nowhere |
| JsString.CharIndex | src/util.ts:7 | the first position holding a character, -1 exactly when it is absent |
| JsString.IndexOfIsCharIndex | src/components/Sound.tsx:189-190 | `indexOf` of a one-character string is the character search |
| JsString.CharIndexAt | src/util.ts:7 | a character not found before `k` and present at `k` is found at `k` |
| JsString.StringSplit | src/util.ts:7 | splitting always gives at least one piece |
| JsString.SplitAt | src/util.ts:7 | a split is the piece before the first separator, then the split of the rest |
| JsString.SplitNone | src/util.ts:7 | a text without the separator is one piece |
| JsString.JoinSplit | src/util.ts:7 | joining the pieces of a split with the separator gives back the text |
| JsString.SplitJoin | src/util.ts:7 | splitting a join of separator-free parts gives back the parts |
| JsString.SplitAround | src/util.ts:7 | a separator splits a text into the pieces of its two sides |
| JsString.JoinAvoids | src/components/Sound.tsx:191 | a join contains a character only if a part or the separator does |
| JsString.JoinAround | src/components/Sound.tsx:191 | part `k` of a join sits between the join of the parts before it and of those after it |
| JsString.ArrayJoin | src/components/Sound.tsx:191 | `join`: the parts with the separator between consecutive ones; its round trips with the split are JoinSplit and SplitJoin |
| RegexSource.Join | src/util.ts:2-3 | `join` is one outer group; no operands give `()`, one gives `((r))` |
| RegexSource.JoinPlacesOperand | src/util.ts:2-3 | operand `k` appears as its group between the groups before and after it, separated by `s` (a comma when `s` is undefined) |
| RegexSource.Modify | src/util.ts:12 | `modify(m, x)` is the group of `x` followed by exactly `m` |
| RegexSource.Escape | src/util.ts:8 | escaping only lengthens a text and yields a well-escaped pattern |
| RegexSource.UnescapeEscape | src/util.ts:8 | escaping loses nothing: every character is kept, metacharacters behind a backslash |
| RegexSource.EscapeUnescape | src/util.ts:8 | every well-escaped pattern is the escape of the text it matches |
| RegexSource.TrimStart | src/util.ts:8 | `trimStart` drops exactly the leading whitespace |
| RegexSource.TrimEnd | src/util.ts:8 | `trimEnd` drops exactly the trailing whitespace |
| RegexSource.Alternative | src/util.ts:8 | one word escaped, then trimmed |
| RegexSource.Split | src/util.ts:4-11 | `split(s)`: the alternatives of the space-separated words joined by `\|`, in one group; its results are SplitBlank, RunsOfSpaces and SplitWords |
| RegexSource.Alternatives | src/util.ts:7-9 | escaping, trimming and filtering never adds a word |
| RegexSource.AlternativesNonEmpty | src/util.ts:9 | no alternative is empty |
| RegexSource.AlternativesAppend | src/util.ts:7-9 | the alternatives of two word lists are those of each, in order |
| RegexSource.EscapeBlank | src/util.ts:8 | whitespace is never escaped |
| RegexSource.WhitespaceIsNotMeta | src/util.ts:8 | no whitespace character is a metacharacter |
| RegexSource.BlankAlternative | src/util.ts:8-9 | a word of only whitespace adds no alternative |
| RegexSource.BlankAlternatives | src/util.ts:6-10 | a text of only whitespace has no alternatives |
| RegexSource.SplitBlank | src/util.ts:4-11 | an empty or all-whitespace input gives `()` |
| RegexSource.SplitDoubleSpace | src/util.ts:7 | a doubled space splits into the pieces of each side with one empty piece between |
| RegexSource.SplitSingleSpace | src/util.ts:7 | a single space splits into the pieces of each side |
| RegexSource.DropEmptyWord | src/util.ts:9 | an empty piece adds no alternative |
| RegexSource.RunsOfSpaces | src/util.ts:4-11 | two spaces give the same pattern as one: runs of spaces add no empty alternative |
| RegexSource.EscapeWord | src/util.ts:8 | escaping a whitespace-free word keeps it free of whitespace |
| RegexSource.WordAlternatives | src/util.ts:7-9 | for words without whitespace, the alternatives are exactly the escaped words |
| RegexSource.SplitWords | src/util.ts:4-11 | words joined by single spaces give `(` + escaped words joined by `\|` + `)` |
| Helpers.Placed | src/helpers.ts:135 | `Map.set` keeps an existing key in place and appends a new one; keys stay distinct |
| Helpers.PlacedIdempotent | src/helpers.ts:138-141 | setting the same key again leaves the order unchanged |
| Helpers.PlacedKeepsIndices | src/helpers.ts:146-148 | setting a key keeps every earlier entry at its index |
| Helpers.HookState.constructor | src/helpers.ts:14-16 | a cell starts with its initial value, recorded as the first value |
| Helpers.HookState.Get | src/helpers.ts:18-22 | `get` returns the initial value or the last value set |
| Helpers.HookState.Set | src/helpers.ts:24-27 | `set` stores the value, records it and triggers a re-render once |
| Helpers.AsyncContext.constructor | src/helpers.ts:51-53 | a context starts neither loaded nor loading, without value or error |
| Helpers.AsyncContext.Load | src/helpers.ts:82-85 | `load` starts the initializer exactly when nothing is loaded or loading, and then sets `isLoading` |
| Helpers.AsyncContext.Resolve | src/helpers.ts:86-92 | success sets `hasLoaded`, clears `isLoading` and stores the value |
| Helpers.AsyncContext.Reject | src/helpers.ts:93-97 | failure clears `isLoading`, records the error and leaves `hasLoaded` false |
| Helpers.AsyncContext.Refresh | src/helpers.ts:101-106 | `refresh` does nothing while loading; otherwise it clears `hasLoaded` and always starts the initializer; loaded and loading are never both true |
| Helpers.AsyncContext.Set | src/helpers.ts:77-80 | `set` replaces the value and keeps the flags |
| Helpers.Collection.constructor | src/helpers.ts:125-129 | a collection starts empty |
| Helpers.Collection.Get | src/helpers.ts:130-137 | a stored truthy item is returned without calling the creator; otherwise the creator is called once, without a previous item, and its result is stored |
| Helpers.Collection.Upget | src/helpers.ts:138-142 | `upget` always calls the creator with the value and the previous item, and overwrites only that key |
| Helpers.Collection.Has | src/helpers.ts:143-145 | `has` is true exactly for the stored keys |
| Helpers.Collection.Map | src/helpers.ts:146-148 | `map` visits the entries in insertion order with 0-based indices |
| Helpers.Ref.constructor | src/helpers.ts:152-157 | a reference starts null |
| Helpers.Ref.SetCurrent | src/helpers.ts:161-164 | setting `current` stores the element and calls `oncreate` only for a non-null element |
| FillKernel.ParamList | src/lib.wat.ts:11-13 | one `(param $v f32)` per variable, space-separated |
| FillKernel.CallArgs | src/lib.wat.ts:30-32 | one `(local.get $v)` per variable, space-separated |
| FillKernel.FillSource | src/lib.wat.ts:1-42 | the module text: header, parameter listing, loop up to the call, argument listing, rest of the loop; SignatureMatchesCall reads it back |
| FillKernel.Time | src/lib.wat.ts:24-29 | the value of `$t` for sample `i`: `i / 44100` |
| FillKernel.IdLength | src/lib.wat.ts:11-13 | the identifier at the start of a text is the longest run of identifier characters |
| FillKernel.ReadListing | src/lib.wat.ts:11-13 | reading a listing of identifiers gives back the identifiers, in order |
| FillKernel.ListingIsOneLine | src/lib.wat.ts:11-13 | a listing holds no newline |
| FillKernel.AffixesEndNames | src/lib.wat.ts:11-13 | the text after a name in either listing starts with a character no name contains |
| FillKernel.ParamsAndArgs | src/lib.wat.ts:11-32 | both the parameter listing and the call's argument listing read back as the variables |
| FillKernel.ReadAssembled | src/lib.wat.ts:1-42 | text laid out like the generator's output reads back as its two listings |
| FillKernel.ReadAssembledBody | src/lib.wat.ts:11-32 | the part between header and trailer reads back as the variables, twice |
| FillKernel.SignatureMatchesCall | src/lib.wat.ts:1-42 | the generated function's f32 parameters and the arguments of its call to `$f` are the variables, in the same order |
| FillKernel.Written | src/lib.wat.ts:36-39 | a call writes `size` samples for sizes 1 to 262144; for any other size it writes all 262144 slots before trapping |
| FillKernel.Instance.constructor | src/lib.wat.ts:2-9 | an instance has its memory and formula, with `$t` at 0 |
| FillKernel.Instance.Fill | src/lib.wat.ts:14-40 | the loop traps exactly for size 0 or above 262144; sample `j` goes to byte offset `4*j`, in order, holding `f` at time `j/44100`; the rest of memory is untouched; `$t` ends at the last time set |
| Sound.MinOf | src/components/Sound.tsx:96-101 | the lower bound: the range's minimum, or 0 without a range |
| Sound.MaxOf | src/components/Sound.tsx:97-101 | the upper bound: the range's maximum, or 1 without a range |
| Sound.DefaultValue | src/components/Sound.tsx:103 | the declared default, or 1 without one |
| Sound.CreatedValue | src/components/Sound.tsx:103-111 | a new knob holds the default; with a declared default the value is the default; otherwise a previous knob's value is kept |
| Sound.CreateKnob | src/components/Sound.tsx:95-119 | bounds come from the range or are 0 and 1; a previous knob's cell is reused, and set only if it differs from a declared default; otherwise a fresh cell holds the default |
| Sound.StorePut | src/components/Sound.tsx:148 | storing a knob that reuses its key's cell, or has a new cell, keeps the store's invariant |
| Sound.KnobStore.constructor | src/components/Sound.tsx:94-95 | the knob store starts empty |
| Sound.KnobStore.Values | src/components/Sound.tsx:157 | the values are those of the stored knobs' cells, one per key |
| Sound.KnobStore.Upget | src/components/Sound.tsx:148 | the creator runs with the stored knob as previous; only that key and its cell change, and a new key goes last |
| Sound.KnobStore.Get | src/components/Sound.tsx:178 | a stored knob is returned unchanged; a missing one with no argument fails and stores nothing; with an argument, a fresh knob is stored |
| Sound.KnobStore.Has | src/components/Sound.tsx:157 | `has` is true exactly for the stored ids |
| Sound.PresentValues | src/components/Sound.tsx:157 | the filtered values are never more than the arguments |
| Sound.PresentValuesAll | src/components/Sound.tsx:154-158 | when every argument has a knob there is one value per argument, in argument order |
| Sound.PresentValuesSkip | src/components/Sound.tsx:157 | an argument without a knob contributes no value: the values are those of the other arguments, in order, and fewer than the arguments |
| Sound.Split | src/components/Sound.tsx:61 | `split(x, index)`: `x.slice(0, index)` and `x.slice(index)`; SplitRejoins states what the halves are |
| Sound.SplitRejoins | src/components/Sound.tsx:61 | the halves of `split` are the text before and from the clamped index and concatenate back to the text |
| Sound.InsertSplices | src/components/Sound.tsx:62-64 | within bounds, `insert` is `x[..i] + y + x[i+off..]`, has length `\|x\|-off+\|y\|` and keeps the text outside `[i, i+off)` |
| Sound.Insert | src/components/Sound.tsx:62-64 | `insert(x, index, y, offset)`: `x.slice(0, index) + y + x.slice(index + offset)`; InsertSplices states what it does within the text |
| Sound.Separator | src/components/Sound.tsx:180 | no prefix for entry 0; with more than four arguments a tab before odd entries and a new line before even ones; otherwise a new line |
| Sound.Entry | src/components/Sound.tsx:180-184 | one entry: separator, id, `[min..max]` when a range is declared, `=`, the value formatted to 2 decimals below 10 in magnitude and 1 otherwise |
| Sound.Entries | src/components/Sound.tsx:177-186 | one entry per argument in order: separator, id, range text, `=`, formatted value |
| Sound.ArgList | src/components/Sound.tsx:191 | the entries joined by commas; ArgListPlacesEntry and SplitArgList state its layout |
| Sound.NewArgs | src/components/Sound.tsx:177-191 | the argument list built from the knob values of the arguments, in argument order |
| Sound.ArgListPlacesEntry | src/components/Sound.tsx:177-191 | entry `k` sits in the comma-joined list between the entries before it and those after it |
| Sound.OneValueOneEntry | src/components/Sound.tsx:177-186 | changing one knob's value changes only its entry |
| Sound.SplitArgList | src/components/Sound.tsx:191 | when no entry holds a comma, splitting the list at commas gives back the entries |
| Sound.OldArgs | src/components/Sound.tsx:188-190 | the old argument list: from the symbol's index, what lies after the first `(` before the first `)`; OldArgsLocated states it as a slice of the text |
| Sound.OldArgsOccur | src/components/Sound.tsx:188-192 | the old argument list is always found in the text |
| Sound.Pieces | src/components/Sound.tsx:188-190 | the three cuts are pieces of the text, and the last one occurs at its offset |
| Sound.SplitPiece | src/components/Sound.tsx:61 | splitting a piece of a text cuts it at the clamped offset |
| Sound.OldArgsLocated | src/components/Sound.tsx:188-190 | the old argument list is the text after the first `(` before the first `)` from the symbol |
| Sound.ArgsPieces | src/components/Sound.tsx:188-190 | the three cuts at the symbol, the `)` and after the `(` |
| Sound.ReplaceFirst | src/components/Sound.tsx:192 | `insert(input, input.indexOf(args), newArgs, args.length)`; ReplaceSplices states the splice |
| Sound.PatchedCode | src/components/Sound.tsx:188-192 | the formula text with its old argument list replaced by the new one; PatchSplices and PatchReplacesArgList state where |
| Sound.ReplaceSplices | src/components/Sound.tsx:192 | the first occurrence of `args` is replaced by `newArgs`, the rest kept, and the length changes by the difference |
| Sound.ReplaceUnchanged | src/components/Sound.tsx:192 | replacing a text by itself changes nothing |
| Sound.ReplaceEmpty | src/components/Sound.tsx:192 | an empty old argument list puts the new one at offset 0 |
| Sound.ReplaceShiftsCaret | src/components/Sound.tsx:192-201 | a caret after the replaced text, moved by the length change, precedes the same text |
| Sound.ReplaceKeepsPrefix | src/components/Sound.tsx:192 | the text before the replaced one is kept |
| Sound.PatchSplices | src/components/Sound.tsx:188-192 | the patched text is the old one with its first occurrence of the old argument list replaced, and its length changes by the difference |
| Sound.PatchReplacesArgList | src/components/Sound.tsx:188-192 | when the old argument list does not occur earlier, the patch replaces the formula's own argument list between `(` and `)` |
| Sound.ReplaceFirstAt | src/components/Sound.tsx:192 | a text found at a position and nowhere before is replaced there |
| Sound.FirstOccurrence | src/components/Sound.tsx:192 | an occurrence with none before it is the one `indexOf` finds |
| Sound.PatchUnchanged | src/components/Sound.tsx:188-192 | writing back the same argument list leaves the text unchanged |
| Sound.CaretFollowsText | src/components/Sound.tsx:188-201 | after the patch, the moved caret precedes the same text as before |
| Sound.IdSet | src/components/Sound.tsx:147 | every argument's id is in the set |
| Sound.IdSetOnly | src/components/Sound.tsx:147 | every id in the set is an argument's id |
| Sound.NextIdIsNew | src/components/Sound.tsx:147 | with distinct ids, each argument adds a new id |
| Sound.UpsertStep | src/components/Sound.tsx:147-150 | one more `upget` extends the reconciliation to the next argument |
| Sound.UpsertKeepsEarlier | src/components/Sound.tsx:147-150 | upserting an argument keeps the knobs of the earlier ones |
| Sound.Caret | src/components/Sound.tsx:197-212 | a set, nonzero selection defers a step with the caret moved by the length change; otherwise the patch resolves at once |
| Sound.ValuesAre | src/components/Sound.tsx:157 | a map that gives each knob its cell's value is the store's values |
| Sound.SoundState.constructor | src/components/Sound.tsx:74-92 | the state starts with the formula text, no arguments, no symbol, no knob values and no knobs |
| Sound.SoundState.UpsertKnobs | src/components/Sound.tsx:145-152 | every argument gets a knob with its bounds, reusing its previous cell, and a value set by the creator; no key is removed, other knobs keep their values, and existing keys keep their order |
| Sound.SoundState.UpdateKnobValues | src/components/Sound.tsx:154-159 | the knob values are those of the arguments that have knobs, in argument order |
| Sound.SoundState.Patch | src/components/Sound.tsx:170-201 | fails and changes nothing without a symbol or with an argument without a knob; otherwise writes the knob values into the argument list, blurs the element and defers the caret move as `Caret` says |
| Sound.Resume | src/components/Sound.tsx:202-209 | an aborted step does nothing and never resolves; otherwise the caret is placed, the element refocused and the step resolves |

## Left out

- WebAudio playback, the random preset names, the DOM, JSX and CSS, and the UI components (Knobs, Presets, Edit, app): rendering, I/O and randomness.
- src/compile.ts and the `@stagas/mono` compiler: the arguments, the symbol index and the compiled formula are inputs to the model.
- Float numerics: `toFixed`/`parseFloat` formatting of a value is the parameter `fmt`; range and default tokens come already parsed as `real`; `$t` and samples are `real`, without f32 rounding, and the formula is the uninterpreted function `f`.
- Scheduling: the `atomic` wrapper, `setTimeout` and `requestAnimationFrame` are out; an `aborted` flag passed to `Sound.Resume` stands for the abort signal.
- `setSelectionRange` clamping of an out-of-range caret: `Sound.Resume` stores the caret as computed.
- Helpers.HookState.Set: the debounced trigger and hook tracking are reduced to a count of re-render requests.
- Helpers.AsyncContext.Load: the initializer's promise is replaced by the events `Resolve` and `Reject`; `get` (a `load` then the context itself), `whenLoaded` and the promise fields are not modelled.
- Helpers.Collection.Map: `fn` does not receive the Map as its fourth argument.
- `useLocalStorage` (browser storage), `useAsyncContext`, `useState` and `useRef` (one-line factories), and `allChildren`/`allChildrenOf` (DOM traversal).
- Sound.SoundState.UpsertKnobs: requires distinct argument ids; with a repeated id the later `upget` sees the knob made by the earlier one, which the contract does not describe.
- Sound.SoundState.UpsertKnobs: the `knob.arg = arg` assignment is not modelled, because the creator has already stored that argument.
- The live knob collection comes from an unseen library; `Sound.KnobStore` gives it the semantics of `useCollection` in src/helpers.ts.
- Strings are sequences of Unicode scalar values, while JavaScript strings are UTF-16 code units: for text with characters outside the Basic Multilingual Plane, lengths, `slice`/`indexOf` offsets, the symbol index and the caret count characters, not code units, and lone surrogates cannot be represented.
- RegexSource: a regular expression is its pattern string as handed to `RegExp`; the constructor's escaping of `/` and line terminators in `source`, and the SyntaxError it throws on an invalid pattern (as for `modify("(", x)`), are not modelled.
- FillKernel.Instance.Fill: `size` is taken as the unsigned 32-bit value of the i32 argument, and the byte offsets are a ghost out-parameter.
