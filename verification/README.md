# uglifyify, modelled in Dafny

uglifyify is a browserify transform that minifies each bundled file with uglify-es.
When a file is offered, `uglifyify(file, opts)` decides whether to leave it alone. A file is
left alone when it matches an `ignore` glob, when it is JSON, or when the list assembled
from `opts.exts` and `opts.x` is non-empty and does not hold its extension. Otherwise the transform buffers the
source. When the source ends, `ready()` does the following:

- looks for an inline base64 source map at the end of the buffer;
- decides whether source maps are produced (the `debug` flag, `_flags.debug`, or the inline
  map, unless `sourceMap` is `false`);
- copies the defaults and then the caller's options into the minifier's record with a
  shallow `extend`;
- remaps the caller's command-line short keys (`mapArgv`) in the caller's record only;
- finishes the minifier's record: the bundler-only keys removed, `compress._` dropped, and
  `sourceMap.url` and `sourceMap.content` attached;
- calls the minifier and strips the `//# sourceMappingURL=out.js.map` comment it appends.

The model has one module per concern:

- `Values`: JavaScript values, truthiness, property reads and sloppy-mode writes. The
  TypeErrors the code can raise become a `Failure`.
- `Strings`: suffix helpers.
- `Paths`: POSIX `path.extname`.
- `Extensions`: the extension list, the skip predicate and `ignore`.
- `InlineMap`: the inline source-map expression of line 43, as a recogniser with a renderer
  as its inverse.
- `OutputComment`: the replace of line 88.
- `Options`: `extend`, the debug flag, `mapArgv` and the minifier record.
- `Uglifyify`: the two entry points, `Setup` (the decision when a file is offered) and
  `Prepare`/`Ready` (the work in `ready()`).

`mapArgv(opts)` runs after the minifier's copy `_opts` has been taken, and it rewrites only
the caller's record. The short keys `c`, `m`, `p`, `b`, `o` and `d` therefore reach the
minifier as given, and only the caller's record holds the long keys. If the bundler passes
the same record for later files, those see the long keys; index.js alone does not show
whether it does. The model does what the code does. `Uglifyify.ShortKeysReachMinifier` states the
consequence.

The unescaped dots in the expression of line 88 match any single UTF-16 code unit but a
line terminator, so `out-js_map` is stripped as well. The model keeps this. Model strings
are sequences of Unicode scalar values, so a dot matches exactly the characters of the
Basic Multilingual Plane other than line terminators. A character beyond it takes two code
units in JavaScript and never matches there.

These are parameters of the model rather than modelled code:

- `matches` stands for the glob matcher `minimatch(pattern).match(file)`;
- `decode` stands for base64 decoding followed by `convert.fromJSON(...).sourcemap`, and
  fails on unreadable input;
- `minify` stands for `ujs.minify`, returning the code or the error's message.

## Model

| member | source | states |
|---|---|---|
| Paths.ExtName | index.js:33 | `path.extname` is empty or one leading dot followed by no dot or slash, and is a proper suffix of the last path segment |
| Paths.ExtNameOfFileName | index.js:33 | a path whose last segment is `stem.ext` (any directory, any trailing slashes) has extension `.ext` |
| Paths.ExtNameWithoutDot | index.js:33 | a last segment without a dot has no extension |
| Paths.ExtNameOfParent | index.js:33 | a last segment `..` has no extension, in any directory and with any trailing slashes |
| Extensions.Normalise | index.js:25-28 | an entry gains a leading dot exactly when it lacks one, and otherwise keeps its text |
| Extensions.NormaliseIdempotent | index.js:25-28 | normalising a normalised entry changes nothing |
| Extensions.NormaliseAll | index.js:25-28 | the `.map` keeps length and position, normalising each entry |
| Extensions.NormaliseAllAppend | index.js:22-28 | normalising the concatenation equals concatenating the normalised `exts` and `x` lists |
| Extensions.NormaliseAllIdempotent | index.js:22-28 | normalising the list twice equals normalising it once |
| Extensions.EntryStrings | index.js:26 | the entries succeed exactly when every one is a string (`charAt` exists), and then keep their text and order |
| Extensions.Entries | index.js:22-24 | the `exts` values followed by the `x` values, a falsy option contributing nothing, an array its elements, any other value itself (no contract; `ExtensionListOrder` states the order) |
| Extensions.ExtensionList | index.js:22-28 | the list fails exactly when an entry of `exts`/`x` is not a string; otherwise entry i is entry i normalised and starts with `.` |
| Extensions.ExtensionListOrder | index.js:22-28 | the list holds the normalised `exts` entries first, then the normalised `x` entries, each in order; a non-array truthy value counts as one entry |
| Extensions.IsJson | index.js:31 | the file name ends in `.json` (a definition without a contract; `JsonAlwaysPassesThrough` and `JsonNeverMinified` state its effect) |
| Extensions.IndexOf | index.js:33 | `indexOf` is -1 exactly when the extension is absent, and otherwise the first position holding it |
| Extensions.PassesThrough | index.js:30-35 | a JSON file passes through; any other file passes through exactly when the list is non-empty and lacks its extension |
| Extensions.JsonAlwaysPassesThrough | index.js:30-36 | a `.json` file passes through whatever the list holds |
| Extensions.NormaliseMatchesExtension | index.js:25-33 | an entry written with or without its dot matches an extension alike |
| Extensions.PassesThroughIffUnlisted | index.js:30-36 | with no entries a non-JSON file is minified; for a file that has an extension and a non-empty list, it passes through exactly when no entry names that extension with or without its dot |
| Extensions.NoExtensionNeedsEmptyList | index.js:30-36 | a file without an extension is minified exactly when the list is empty |
| Extensions.AnyMatches | index.js:123-126 | `some` holds exactly when some pattern matches the file |
| Extensions.Ignored | index.js:118-127 | a falsy list ignores nothing; an array ignores the file when some element matches; any other value acts as a list of one |
| InlineMap.Recognise | index.js:41-44 | a recognised comment is well formed and, rendered back, is a suffix of the buffer |
| InlineMap.RecogniseRender | index.js:43 | any well-formed comment (either marker, optional space, optional charset, non-empty payload, up to two pads, optional newline) at the end of any buffer is recognised with exactly its parts |
| InlineMap.BlankLineHides | index.js:43 | a buffer ending in two newlines has no inline map, because `$` allows only one newline |
| InlineMap.TrailingCharacterHides | index.js:43 | a character other than a newline, a pad or a payload character at the end hides the comment |
| OutputComment.AtMostOneEnding | index.js:88 | the spaced and unspaced comments cannot both end the same code |
| OutputComment.Strip | index.js:88 | the result is the code or a prefix of it, shorter exactly when the code ends in the comment (with `#`/`@`, optional space, wildcard dots), and what is removed is that comment |
| OutputComment.StripAppended | index.js:88 | appending such a comment and stripping gives the code back |
| OutputComment.StripWithoutComment | index.js:88 | code with no such comment as a suffix is left unchanged |
| OutputComment.AstralCommentRejected | index.js:88 | a comment (either marker, with or without the space) holding a character beyond the Basic Multilingual Plane in either dot's place does not match |
| OutputComment.AstralCharacterKept | index.js:88 | code of any prefix ending in such a comment is left unchanged |
| Values.SetProp | index.js:71-78 | a property write fails on `null`/`undefined`, updates only that key on an object, and is ignored on a primitive |
| Options.Extend | index.js:49-55 | shallow `extend`: keys of the target plus every source key with a defined value; the source wins where it is defined |
| Options.ExtendIdempotent | index.js:49-55 | extending a second time with the same source changes nothing |
| Options.Merged | index.js:49-55 | the merge holds the defaults and every caller key with a defined value; the caller's value wins, and `compress`, `mangle` and `sourceMap` fall back to `true`, `true` and `{filename: file}` |
| Options.SourceMapsEnabled | index.js:46 | maps are produced when `sourceMap` is not `false` and the debug flag is truthy or an inline map matched (a definition; `Prepare` and `SourceMapFalseDisables` state its effect) |
| Options.DebugFlag | index.js:13-15 | without `_flags` debug is `true`; with an object it is `_flags.debug`; a `null`/`undefined` `_flags` throws; any other value yields `undefined` |
| Options.MoveIfTruthy | index.js:132-135 | a truthy short key moves to its long key and leaves the record; a falsy one changes nothing; other keys are untouched |
| Options.Remap | index.js:132-155 | the `if (opts.c) {...}` blocks applied in table order (no contract; `RemapMovesEachPair` characterises it) |
| Options.RemapMovesEachPair | index.js:131-155 | a table of pairs with no shared key remaps each pair as if it were alone and leaves every other key untouched |
| Options.ArgvTableDistinct | index.js:132-155 | the six short/long pairs share no key, and together they name exactly the twelve keys |
| Options.MapArgv | index.js:131-157 | every truthy short key moves to its long key, every falsy one stays, `_` is gone, and every other key keeps its value |
| Options.MapArgvIdempotent | index.js:131-157 | remapping a remapped record changes nothing |
| Options.ShortKeyIsFree | index.js:49-65 | no short key is a default or a deleted bundler key |
| Options.Stripped | index.js:49-65 | the merge without `global`, `exts`, `x`, `_`, `_flags`; every other key is present exactly when it is a default or the caller defined it, and carries the merged value |
| Options.CleanCompress | index.js:67-69 | an object `compress` loses `_`; `compress: null` throws (`typeof null` is `'object'`); nothing else changes |
| Options.AttachSourceMap | index.js:71-78 | with maps off nothing changes; with maps on `sourceMap.url` is `out.js.map` and, for an inline map, `sourceMap.content` is the decoded map; a nullish `sourceMap` or an unreadable map throws |
| Options.MinifierOptions | index.js:49-78 | the minifier record fails exactly on a `null` compress, or with maps on a `null` sourceMap or unreadable inline map; it has no bundler key, holds exactly the defaults and the caller's defined keys, and carries the cleaned `compress` and the attached `sourceMap` |
| Uglifyify.Setup | index.js:10-36 | a malformed `_flags` always throws; an ignored file passes through; otherwise a bad extension entry throws, and the file is minified exactly when it is not JSON and the list is empty or holds its extension, with the debug flag read from `_flags` |
| Uglifyify.JsonNeverMinified | index.js:30-36 | a JSON file is never minified |
| Uglifyify.DebugFlagDecision | index.js:13-15 | a minified file's debug flag is `true` without `_flags`, `_flags.debug` for an object, `undefined` otherwise |
| Uglifyify.Prepare | index.js:41-79 | maps are produced exactly when `sourceMap` is not `false` and the debug flag is truthy or an inline map was found; it fails exactly on a `null` compress, or with maps on a `null` sourceMap or an unreadable inline map; an object `sourceMap` gets `url: 'out.js.map'` when maps are on; the caller's record is remapped; the minifier record has no bundler key |
| Uglifyify.Ready | index.js:81-89 | a minifier error becomes the failure; otherwise the emitted code is the minifier's code with the trailing `out.js.map` comment removed exactly when it is there |
| Uglifyify.ReadyDropsMinifierComment | index.js:86-89 | when the minifier's code ends in the comment, the code before it is emitted; code without the comment is emitted as the minifier produced it |
| Uglifyify.ShortKeysReachMinifier | index.js:49-58 | a truthy short key reaches the minifier under its own name, while the caller's record holds its value under the long key only |
| Uglifyify.SourceMapFalseDisables | index.js:46 | `sourceMap: false` disables maps regardless of debug flag and inline map, and reaches the minifier as `false` |
| Uglifyify.InlineMapFeedsMinifier | index.js:41-78 | an inline map ending the buffer enables maps even with debug off; an object `sourceMap` (the default or the caller's) reaches the minifier with its fields, `url: 'out.js.map'` and the decoded payload as `content` |
| Uglifyify.DefaultSourceMapNamed | index.js:46-71 | with debug on and no inline map, an object `sourceMap` reaches the minifier with its fields and `url: 'out.js.map'`; the default one as `{filename: file, url: 'out.js.map'}` |

## Left out

- Streams, `through`, buffering by `write` (lines 38-40) and `capture` (lines 107-115): the buffer is given whole, and a failure stands for the error the stream emits.
- The map emitted after the code (lines 91-104): it depends on the minifier's output map and on `convert-source-map`, which are not part of this model.
- `opts = opts || {}` (line 11): the options record is always given as a record.
- `minimatch`, `ujs.minify`, base64 decoding and `convert.fromJSON` are not part of this model. They appear as the parameters `matches`, `minify` and `decode`.
- `min.error instanceof Error` (line 84): both branches throw, and the failure keeps only the message.
- Strings are sequences of Unicode scalar values, not of UTF-16 code units. The expressions of lines 31, 43 and 88 use only characters of the Basic Multilingual Plane, and the dot of line 88 is restricted to them (see `OutputComment.AnyChar`). Lone surrogates cannot be written.
- Extensions.Ignored: `minimatch(pattern)` throws a TypeError for a pattern that is not a string (`ignore: 5`, `ignore: [null]`). The matcher is a boolean parameter, so this error is not modelled, and `Setup` reports such a call as succeeding.
- Windows paths: `path.extname` is modelled for POSIX separators only.
- Numbers are integers: `NaN`, `-0` and fractions, which only matter for truthiness, are not modelled.
- Property writes on arrays and prototype-chain lookups (`'_flags' in opts` finding an inherited key): records are own properties only.
- Values.SetProp: a write to an array `sourceMap` leaves the array unchanged in the model, because array properties are not tracked.
- Object identity: nested objects shared between `opts` and `_opts` are copies in the model. The deletion of `compress._` and the writes to `sourceMap` are therefore not seen in the caller's record.
- The mutation of the caller's record when a later step throws: `Prepare` returns the remapped record only on success.
- `extend`'s special handling of `__proto__` keys.
