# next-loc dictionary compiler and translation resolver, in Dafny

This project models the core of next-loc, an internationalisation library for Next.js:

- **The dictionary compiler** (`compileDictionary`). For every supported locale, it reads one JSON fragment per supported namespace from a path built from the configured `dictionaryPath` template. It then folds each locale's inheritance chain into the locale with a right-priority deep merge. Last, it lays the locale-independent `GLOBAL` fragments underneath every locale.
- **The translation resolver** (`getTranslation`, `translate`, `genT`, `adaptNamespace`), in its current form and in its older form.
  - `translate` walks the dotted path `{locale}.{key}` through a dictionary.
  - It returns the string it finds.
  - On any failure it returns the path itself, logged as a warning or an error.
  - `genT` and `adaptNamespace` build translation functions that prefix namespaces.
- **The memoising translator** (`generateLocDedup`, `dedupTranslationNow`): a generator that asks its translation function once per key.
- **The helpers**: the configuration constructor `createLocaleConfig` and its type-level invariants, the configuration check `checkLocaleConfig`, and the missing-file suppression predicate.

Modules, one per file:

- `Wrappers` (`wrappers.dfy`): `Option`.
- `Trees` (`trees.dfy`): translation trees (`Reference`), the segment walk, and the deep merge.
- `Paths` (`paths.dfy`): `key.split(".")` and the `{locale}` / `{namespace}` placeholder substitution.
- `Config` (`config.dfy`): the locale configuration.
- `Checks` (`checks.dfy`): the configuration check.
- `Suppression` (`suppression.dfy`): the suppression predicate.
- `Compiler` (`compiler.dfy`): the dictionary compiler.
- `Resolver` (`resolver.dfy`): the current resolver.
- `LegacyResolver` (`legacy.dfy`): the older resolver, which falls back to the compiled dictionary.
- `Dedup` (`dedup.dfy`): the memoising translator, as a class.

Each loop of the source becomes a method with that loop and its invariants, proved equal to a specification function. The exception is the generator's `while (true)` in `generateLocDedup`: it becomes the phase machine of `Dedup.LocDedup`, with one call of `Next` per `next()`. The lemmas state what those functions promise:

- merge priority;
- the fold order of inheritance;
- the global layer;
- the walk;
- the severity of failures;
- the equations of the closures;
- agreement between the two resolver versions.

### What the model takes as given

These become parameters:

- **The file system and `JSON.parse` in the compiler.** They are a map from path to `Option<Reference>`. An absent path cannot be read; `None` does not parse.
- **Decompression and parsing of a string dictionary in the resolver.** This is a function `string -> Option<Reference>`; `None` stands for a throw.
- **The locale regular expression's `test`.** It is a predicate.
- **The environment test `typeof window !== "undefined"`.** It is a boolean.
- **The module-level `localeConfig` and `dictionary`.** They are arguments.

Console output is replaced by returned values:

- the sequence of diagnostics `checkLocaleConfig` emits;
- the list of fragment paths whose load failed;
- the severity tag of a failed translation.

### Where the code decides

- **Inheritance order.** Some descriptions of this library say the earliest-listed inherited locale has the highest priority. The code walks `inherits[L]` reversed and merges each inherited locale *under* the accumulated dictionary, so the locale listed **later** wins (source/internal/compileDictionary.ts:51-58, and the comment at line 54). The model follows the code: with `inherits[L] = [X, Y]`, `X = {a: "x"}`, `Y = {a: "y", b: "y"}` and `L = {}`, the result is `L = {a: "y", b: "y"}` (`Compiler.InheritanceOrderExample`).
- **Cycles.** The fold runs once over the supported locales and reads each inherited dictionary in its current state. It therefore terminates on any chain, cyclic or not, and the model asks only that chains name supported locales (`Config.InheritsSupported`). A locale listed in its own chain is excluded by `Config.Valid`, as the type parameters of `createLocaleConfig` demand. The closed-form lemmas use that exclusion.
- **Suppression.** `getShouldSuppressENOENT` reads `localeConfig.other.suppress.missingDictionary`, but `createLocaleConfig` builds no `suppress` group, and the compiler never calls the predicate. The model takes the `missingDictionary` value as a parameter. It keeps suppression out of the compiler, which reports every failed load.
- **An empty compressed dictionary.** The string `""` is falsy, so `getTranslation` treats it as "No dictionary provided", an error. `genT` without delayed decompression decodes `""` eagerly instead. The decoder parameter decides whether that throws or gives an object, which `genT` then holds. `Resolver.GenT` therefore states the closure with the original argument only when that argument is not an eagerly decoded `""`. For eagerly decoded text that gives an object, `""` included, it states the closure with that object. With delayed decompression `""` is held as it is, and the lookup reports no dictionary.
- **A compressed dictionary whose JSON is a string.** `genT` without delayed decompression replaces a string argument by `JSON.parse` of its decompression. When that is itself a string, `genT` holds the string, and each lookup decompresses it again. The model keeps that text as a compressed dictionary (`Resolver.Held`). So the closure equation of `Resolver.GenT` is stated for that case separately. `Resolver.HeldAsGiven` names the arguments for which the held value equals the given one.

## Model

| member | source | states |
|---|---|---|
| Trees.WalkConcat | source/translate.ts:18-22 | walking `p + q` is walking `p`, then walking `q` from where `p` ended; a walk that stops early stays stopped |
| Trees.Merge | source/internal/compileDictionary.ts:9 | the merge of two trees is an object exactly when the overlay is one |
| Trees.MergeTrees | source/internal/compileDictionary.ts:55-58 | the merged locale dictionary has the keys of both sides; the overlay's entry wins unless both entries are objects, which merge recursively; base-only entries are kept |
| Trees.MergeTreesNode | source/internal/compileDictionary.ts:92 | merging two objects yields the object whose entries are the key-wise merge |
| Trees.MergeWalk | source/internal/compileDictionary.ts:9 | at every path the merged tree holds the overlay's node (merged with the base's where both exist); it holds the base's node only where the overlay has nothing on that path; descending into an overlay string stays blocked |
| Trees.MergeLeaf | source/internal/compileDictionary.ts:9 | a string is found at a path in the merge iff the overlay has it there, or the overlay lacks the path and the base has it |
| Trees.MergeTreesLeaf | source/internal/compileDictionary.ts:92 | the same if-and-only-if for two locale dictionaries |
| Trees.MergeSelf | source/internal/compileDictionary.ts:9 | merging a tree with itself gives the tree |
| Trees.MergeAbsorb | source/internal/compileDictionary.ts:9 | merging the same base twice changes nothing more: `merge(a, merge(a, b)) == merge(a, b)` |
| Trees.MergeTreesAbsorb | source/internal/compileDictionary.ts:91-92 | the same for locale dictionaries, so a locale listed twice gets the global layer once |
| Trees.MergeNotAssociative | source/internal/compileDictionary.ts:55-58 | a concrete triple on which regrouping the merges changes the result, so the fold's exact order matters |
| Paths.Split | source/translate.ts:11 | `key.split(".")` yields at least one piece, and no piece contains a dot |
| Paths.JoinSplit | source/translate.ts:11 | joining the pieces with dots gives the key back |
| Paths.SplitPlain | source/translate.ts:11 | a key without a dot is a single segment |
| Paths.SplitDotted | source/translate.ts:37 | `a.b` splits into the pieces of `a` followed by those of `b` |
| Paths.SplitJoin | source/translate.ts:11 | dot-free pieces survive joining and splitting |
| Paths.Substitute | source/internal/compileDictionary.ts:19-23 | every character of the substituted text comes from the text or from the value |
| Paths.FragmentPath | source/internal/compileDictionary.ts:19-23 | every character of a fragment path comes from the template, the locale or the namespace |
| Paths.SubstitutePlain | source/internal/compileDictionary.ts:19-23 | text that cannot begin the placeholder is copied through substitution |
| Paths.SubstituteHead | source/internal/compileDictionary.ts:19-23 | a placeholder at the front is replaced by the value |
| Paths.SubstituteNone | source/internal/compileDictionary.ts:19-23 | brace-free text is left unchanged |
| Paths.NamespacePlaceholderKept | source/internal/compileDictionary.ts:19-23 | substituting the locale leaves `{namespace}` and the brace-free text after it alone |
| Paths.FirstPass | source/internal/compileDictionary.ts:19-23 | a pass over `a{p}b rest` replaces `{p}` and keeps the rest, when that pass leaves the rest alone |
| Paths.LocalePass | source/internal/compileDictionary.ts:19-23 | the locale pass over `a{locale}b{namespace}c` gives `a` + locale + `b{namespace}c` |
| Paths.NamespacePass | source/internal/compileDictionary.ts:19-23 | the namespace pass replaces the one `{namespace}` after a brace-free prefix |
| Paths.FragmentPathShape | source/internal/compileDictionary.ts:19-23 | for a template `a{locale}b{namespace}c` with brace-free parts and values, the fragment path is `a` + locale + `b` + namespace + `c` |
| Config.ValidInheritsSupported | source/internal/controller.ts:10-16 | a valid configuration's chains name only supported locales |
| Config.CreateLocaleConfig | source/internal/controller.ts:41-51 | every argument lands unchanged in its group (the flat arguments can be read back), and the configuration is valid iff the arguments meet the type-level constraints |
| Config.RegroupRoundTrip | source/internal/controller.ts:41-51 | regrouping the flattened arguments of a configuration gives the configuration back |
| Config.SampleConfigValid | source/config.ts:3-21 | the shipped configuration meets the invariants and defaults to `en-GB` / `common` |
| Checks.MismatchWarningsConcat | source/internal/checks.ts:7-16 | warnings are per locale and keep the order of the locales |
| Checks.MismatchWarningsMembers | source/internal/checks.ts:7-16 | every warning is a pattern mismatch; a locale is warned about iff it is listed and fails the pattern; there are no more warnings than locales; none iff all locales pass |
| Checks.CheckLocaleConfig | source/internal/checks.ts:6-25 | the diagnostics are the pattern warnings in locale order, then one error iff the default locale is unsupported; none at all iff every locale matches and the default is supported |
| Checks.SampleConfigIsClean | source/config.ts:3-21 | the shipped configuration draws no diagnostic from a pattern `en-GB` passes |
| Suppression.ShouldSuppressENOENT | source/internal/utils.ts:4-11 | `true` suppresses every identifier, `false` none, and an array exactly its members; the result depends only on the value and the identifier |
| Suppression.SuppressionMonotone | source/internal/utils.ts:9 | listing more identifiers suppresses at least as much |
| Compiler.FragmentsSpec | source/internal/compileDictionary.ts:18-40 | a namespace is present iff it is listed and its fragment loaded, and then it holds the parsed fragment; each failed path is reported, and loading continues |
| Compiler.Load | source/internal/compileDictionary.ts:25-39 | a fragment loads iff its file exists and parses, and then it is the parsed content |
| Compiler.LoadFragments | source/internal/compileDictionary.ts:18-40 | the namespace loop builds the locale dictionary and the failure list the specification functions describe |
| Compiler.SampleFragmentPaths | source/internal/compileDictionary.ts:67-71 | with the shipped template, a locale reads `src/locale/dictionary/<locale>/<ns>.json` and global fragments read `src/locale/dictionary/GLOBAL/<ns>.json` |
| Compiler.SampleTemplateShape | source/config.ts:11 | the shipped template has the form `a{locale}b{namespace}c` with brace-free parts |
| Compiler.DirectLoad | source/internal/compileDictionary.ts:15-43 | every supported locale gets an entry, even when all its loads fail; no other locale does |
| Compiler.LoadedLocalesStep | source/internal/compileDictionary.ts:42 | loading one more locale sets that locale's entry to its fragments and leaves the others; a repeated locale gets the same entry again |
| Compiler.LoadLocales | source/internal/compileDictionary.ts:15-43 | the locale loop builds exactly the direct-load dictionary, and reports the failures locale by locale |
| Compiler.ApplyChain | source/internal/compileDictionary.ts:51-59 | the chain loop changes no dictionary's presence |
| Compiler.HasChain | source/internal/compileDictionary.ts:47-50 | in a valid configuration, a locale with an inheritance array is supported and not in its own chain |
| Compiler.FoldOne | source/internal/compileDictionary.ts:47-60 | one iteration of the inheritance loop keeps every locale's presence |
| Compiler.FoldAll | source/internal/compileDictionary.ts:46-61 | the inheritance loop keeps every locale's presence |
| Compiler.FoldInheritance | source/internal/compileDictionary.ts:46-61 | the nested loops (chain reversed) compute the fold, one locale after another on the current state |
| Compiler.ApplyChainOther | source/internal/compileDictionary.ts:55-58 | a locale's chain changes that locale's dictionary only |
| Compiler.ApplyChainClosed | source/internal/compileDictionary.ts:51-59 | for a locale outside its chain, the loop ends with `chain[0]` under `chain[1]` under … under the locale's own dictionary |
| Compiler.InheritedFrame | source/internal/compileDictionary.ts:56 | that result depends only on the chain's dictionaries |
| Compiler.FoldAllConcat | source/internal/compileDictionary.ts:46 | folding two runs of locales is folding the first, then the second |
| Compiler.FoldAllOther | source/internal/compileDictionary.ts:47-50 | a locale the loop does not visit, or one with no array in `inherits`, keeps its dictionary |
| Compiler.FoldAllAt | source/internal/compileDictionary.ts:46-61 | inside the loop over the supported locales, a locale listed once ends with the closed form of its chain over the state the earlier iterations left, so a chain entry visited earlier contributes its already-folded dictionary |
| Compiler.FoldAllOnce | source/internal/compileDictionary.ts:46-61 | a locale listed once, whose chain names locales without chains, ends with the closed form over the directly loaded dictionaries |
| Compiler.InheritedMissing | source/internal/compileDictionary.ts:51-59 | a path no layer has is absent from the result |
| Compiler.InheritedOwnWins | source/internal/compileDictionary.ts:55-58 | the locale's own strings beat everything inherited |
| Compiler.InheritedLaterWins | source/internal/compileDictionary.ts:51-58 | an inherited string shows if it is not shadowed: it appears when the locale and every later-listed chain entry lack the path |
| Compiler.InheritedOrigin | source/internal/compileDictionary.ts:51-59 | every string in the result comes from the locale itself or from a locale in its chain |
| Compiler.InheritanceOrderExample | source/internal/compileDictionary.ts:51-58 | for any distinct locales with `inherits[L] = [X, Y]`, where `X` holds `a`, `Y` holds `a` and `b` and `L` is empty, `L` ends with `Y`'s strings for both keys: the later-listed locale wins |
| Compiler.FoldReadsCurrentState | source/internal/compileDictionary.ts:55-57 | when the iteration for `K` (inheriting `[J]`) runs before the one for `L` (inheriting `[K]`), `L` ends as `J` under `K` under `L`: it receives `J`'s strings through `K`'s already-folded dictionary |
| Compiler.FoldAllSnoc | source/internal/compileDictionary.ts:46 | the inheritance loop over one more locale is one more iteration, on the state the earlier ones left |
| Compiler.FoldOneSingle | source/internal/compileDictionary.ts:47-59 | an iteration for a locale whose chain is one locale merges that locale's current dictionary under it |
| Compiler.ApplyChainSingle | source/internal/compileDictionary.ts:51-58 | a one-entry chain merges the inherited dictionary under the inheriting one |
| Compiler.Overlay | source/internal/compileDictionary.ts:91-92 | every locale keeps its presence, and each listed locale becomes its dictionary laid over the global one |
| Compiler.OverlayStep | source/internal/compileDictionary.ts:91-92 | one more iteration of the global loop lays the global dictionary under that locale, and a repeated locale is not changed again |
| Compiler.OverlayGlobal | source/internal/compileDictionary.ts:91-92 | the global loop computes the overlay |
| Compiler.Folded | source/internal/compileDictionary.ts:46-61 | the fold keeps exactly the directly loaded locales |
| Compiler.CompileDictionary | source/internal/compileDictionary.ts:11-96 | in a browser, the result is `undefined` and nothing is loaded; otherwise the result is the compiled dictionary, and the failures are reported in load order, global ones last |
| Compiler.CompiledLocales | source/internal/compileDictionary.ts:15-16 | the compiled dictionary has an entry exactly for each supported locale |
| Compiler.CompiledOverGlobal | source/internal/compileDictionary.ts:63-93 | under every locale, a string is found iff the folded locale has it, or the locale lacks the path and the global fragments have it |
| Compiler.CompiledStandalone | source/internal/compileDictionary.ts:46-50 | a locale without an inheritance array compiles to its own fragments over the global ones |
| Compiler.CompiledInherits | source/internal/compileDictionary.ts:46-93 | a locale listed once compiles to: global, under its chain's layers in list order, each as the fold had left it when the loop reached the locale, under its own fragments |
| Compiler.CompiledInheritsDirect | source/internal/compileDictionary.ts:46-93 | the same for a chain of locales that inherit nothing: every layer is the locale's fragments as loaded |
| Resolver.WalkSegments | source/translate.ts:18-22 | the segment loop ends where the walk of the segments ends |
| Resolver.Outcome | source/translate.ts:24-25 | the lookup yields a string iff the walk ends on a string; it throws "not found" iff it ends on an object; it yields `undefined` iff the walk stopped |
| Resolver.Resolve | source/translate.ts:10-26 | there is no dictionary iff none or `""` is given; the lookup fails to decode iff a non-empty string does not decode; a string is found iff the dictionary's tree walks to that string along the split key |
| Resolver.GetTranslation | source/translate.ts:10-26 | the method computes the lookup those rules describe |
| Resolver.LookupPath | source/translate.ts:33-37 | the path is the override locale, else the default one, then a dot, then the key |
| Resolver.Translate | source/translate.ts:28-54 | the result is the string found with nothing logged, or else the path `{locale}.{key}`; the path is logged as an error iff no usable dictionary was given, and as a warning otherwise; it never throws |
| Resolver.LookupPathSegments | source/translate.ts:37 | for a locale without dots, the path's segments are the locale followed by the key's segments |
| Resolver.TranslateRaw | source/translate.ts:18-24 | against a dictionary object, `translate` returns a string iff the walk of `{locale}.{key}` ends on it; otherwise it warns and returns the path |
| Resolver.TranslateNoDictionary | source/translate.ts:13 | without a dictionary, or with `""`, the call logs an error and returns the path |
| Resolver.TranslateInLocale | source/translate.ts:37-42 | against a tree keyed by locale, the key is walked inside the locale's own tree; a missing locale is a warning |
| Resolver.TranslateDefaultLocale | source/translate.ts:33 | with no locale given, the configured default locale is used |
| Resolver.TranslateDecoded | source/translate.ts:15-25 | a non-empty compressed dictionary that decodes to an object behaves as that object; one that decodes to a JSON string makes every lookup a warning that returns the path |
| Resolver.GenT | source/translate.ts:57-79 | `genT` fails only when eager decoding throws. Otherwise `genT(l, n, d)(k, d', l')` is `translate(n.k, d' ?? h, l' ?? l)`, with `l` and `n` defaulted and `h` the held dictionary: eagerly decoded text is held as the object it decodes to, `""` included, or as the string its JSON is; any other argument is held as given |
| Resolver.AdaptNamespace | source/translate.ts:81-90 | every call of the adapted function is a call of the old one with the namespace prefixed and the dictionary and locale unchanged |
| Resolver.AdaptNamespaceCompose | source/translate.ts:81-90 | `adaptNamespace(f, a)(k, d, l) == f(a.k, d, l)`, with dictionary and locale passed through; adapting by `a` and then by `b` is adapting by `a.b` |
| Resolver.GenTAdapted | source/translate.ts:57-90 | a function adapted from `genT` by `m` looks up `n.m.k` |
| Resolver.GenTDelayIrrelevant | source/translate.ts:61-67 | for a non-empty string that decodes to an object, eager and delayed decompression give the same function; if it decodes to a JSON string, the delayed function warns on every lookup that falls back to the held text |
| LegacyResolver.OldResolve | source/locale/internal/translate.ts:9-25 | there is no dictionary iff neither an override nor the compiled dictionary exists; a string is found iff the override (else the compiled dictionary) walks to it |
| LegacyResolver.OldGetTranslation | source/locale/internal/translate.ts:9-25 | the older segment loop computes that lookup |
| LegacyResolver.OldTranslate | source/locale/internal/translate.ts:27-53 | the string found, or else the path `{locale}.{key}`: as an error iff no dictionary at all exists, as a warning otherwise |
| LegacyResolver.OldTranslateIsTranslate | source/locale/internal/translate.ts:33 | the older `translate` equals the current one applied to the override, or else to the compiled dictionary |
| LegacyResolver.OldTranslateInBrowser | source/locale/internal/translate.ts:15 | without a compiled dictionary or an override, every lookup is an error that returns the path |
| LegacyResolver.OldGenT | source/locale/internal/translate.ts:56-75 | every call of the older `genT`'s function is `translate(n.k, d' ?? d, l' ?? l)` for any dictionary `d` of its own, with `l` and `n` defaulted; defaulting `d` to the compiled dictionary at creation equals leaving that fallback to `translate` |
| LegacyResolver.OldGenTOwnDictionary | source/locale/internal/translate.ts:63-72 | once `genT` holds a dictionary of its own, the compiled dictionary plays no part, and no call logs an error |
| LegacyResolver.OldAdaptNamespace | source/locale/internal/translate.ts:77-91 | every call of the adapted function is a call of the old one with the namespace prefixed; `?? undefined` leaves both optional arguments as they are |
| LegacyResolver.OldAdaptNamespaceCompose | source/locale/internal/translate.ts:77-91 | the older `adaptNamespace` prefixes the namespace and passes the other arguments through; adaptations compose |
| LegacyResolver.CompiledLookup | source/locale/internal/translate.ts:7 | looking up `{ns}.{key}` for a supported locale in the compiled dictionary walks the key inside that locale's namespace |
| LegacyResolver.CompiledLookupStandalone | source/locale/internal/translate.ts:7 | end to end for a locale without inheritance: its own string wins, and a string only the global fragments hold is found under it too |
| Dedup.LocDedup.constructor | source/internal/dedupTranslations.ts:3-5 | the generator starts suspended, with no keys and no answers |
| Dedup.LocDedup.Next | source/internal/dedupTranslations.ts:7-19 | while it waits for a key, a seen key gets its stored answer without calling `t`; a new key calls `t` once and is stored; in any other phase the input is ignored and the generator waits for a key; the key set and the answer map keep the same domain |
| Dedup.LocDedup.DedupTranslationNow | source/internal/dedupTranslations.ts:22-28 | one wait-key, answer cycle returns `t`'s answer for the key; the cache grows by at most that key and never overwrites an answer |
| Dedup.AskTwice | source/internal/dedupTranslations.ts:30-32 | two requests for one key through the translator give the same answer, and `t` runs at most once for that key |

## Left out

- File reading, `require("fs")`, `JSON.parse` and the `typeof window` tests are parameters. JSON values other than strings and objects (numbers, `null`, arrays) are not modelled.
- The console output of every module is reduced to returned values: failure paths, diagnostics and severity tags. The `supportsColor` gate on the compiler's error messages (source/internal/compileDictionary.ts:32) is left out, so every failed path is reported. The message texts, colours and `error.message` are left out.
- `smob`'s `createMerger` is not visible. `Trees.Merge` is the right-priority deep merge described above, without `smob`'s array handling and with no mutation of its arguments.
- `replaceMultiple` is not visible. `Paths.Substitute` replaces every non-overlapping occurrence of one placeholder, left to right, the locale first. Templates with repeated or nested placeholders are not characterised.
- Decompression (lz-string) and its round trip are not modelled. Decoding is the parameter.
- The JavaScript `in` operator also sees inherited properties such as `toString`. The model's lookups see only a tree's own keys.
- `iterToTranslator` returns a closure over the generator. Dafny function values cannot hold that state, so each call of the closure is `Dedup.LocDedup.DedupTranslationNow`.
- LegacyResolver.CompiledLookup: the older resolver imports the dictionary of its sibling source/locale/internal/compileDictionary.ts, and that file and its `../config` are not part of this model. The lemma passes `Compiler.Compiled` (source/internal/compileDictionary.ts) for that dictionary; it assumes the sibling compiles the same way.
- LegacyResolver.CompiledLookupStandalone: rests on the same assumption as `CompiledLookup`.
- Resolver.GenTDelayIrrelevant: the eager and delayed functions are equated only when the text decodes to an object. When it decodes to a JSON string, the eager function decompresses that string again on lookup, and the lemma states only the delayed function's warning on a lookup that falls back to the held text.
- Dedup.LocDedup.Next: calling `next()` with no key while the generator waits for one resumes it with `undefined` as the key. That is outside the declared `string` type and is excluded by a precondition.
- `LocalisedString` (source/translate.ts:24, 52) is reduced to its text, the `text` field of `Resolver.Translated`. Its class (source/internal/class.ts) is not part of this model.
- Dedup.LocDedup.Next: a cached answer is the stored `Translated`, so its `log` tag records the console output of the first call only. The source logs nothing on a repeat.
- Dedup.LocDedup.DedupTranslationNow: it requires a generator that is not waiting for a key. On a waiting generator the source's first `next()` answers `t(undefined)`, and the second returns `undefined`. That is the same `undefined` key that `Next` excludes.
- The CLI (dist/index.js, index.ts), the React provider and hooks, the compression module, and the type declarations have no behaviour in this model. The type declarations supply only the datatypes, and source/config.ts supplies only the sample configuration.
- `localePattern` is kept as text. Its `test` is a parameter, stateless as a non-global regular expression's is.
