# envReader in Dafny

A model of `readEnv` from the `envReader` package, with proofs about it.
`readEnv(keys, pathToEnvFiles, skipMissingFiles, ignoreMissingKeys)` resolves
a list of requested configuration keys in layers:

1. It takes every requested key the process environment defines, even as the empty string.
2. It walks the `.env` files from highest to lowest priority. Each parsed file fills only
   the keys that are still missing, and the missing list is recomputed after every file.
3. Keys still missing at the end become an error listing them. With `ignoreMissingKeys`,
   they are set to `undefined` instead.

A missing file is fatal unless `skipMissingFiles` is set. An unparseable file is always
fatal, and so is an entry of the path list that is not a string.

The project has four modules:

- `ArrayUtil` (`array_util.dfy`) models `arrayDiff`, an order-preserving difference.
  It proves membership, order, multiplicity and concatenation facts about it.
- `EnvReader` (`env_reader.dfy`) holds the data model and the resolution written as a
  fold (`Resolve`). It also holds `ReadEnv`, an imperative method with the source's
  loops, a local object `m` and a `missingKeys` list; `ReadEnv` is proved to return
  `Resolve`.
- `EnvReaderSpec` (`env_reader_spec.dfy`) is a declarative reference, `Expected`. A key's
  value is the environment's, or else the value from the first parsed file that defines it.
  The call fails at the first entry that cannot be consulted, or else when gaps are not
  tolerated. The theorem `ResolveMatchesExpected` proves that the fold and the reference agree.
- `EnvReaderProperties` (`env_reader_properties.dfy`) states the promised behaviour as
  lemmas about `Resolve`: precedence, first match wins, the failure conditions, tolerance,
  normalisation of the path argument, the result's domain and the unresolved-keys list.

The foreign parts are inputs:

- The environment is an immutable `map<string, string>`.
- The path argument is `Single(path) | Many(seq<Entry>) | Other`, where an `Entry` is
  `Path(string)` or `NonString`.
- `fs.existsSync` together with `dotenv.config` is a `Loader`, a function from a path to
  `Missing | Unparseable | Parsed(map<string, string>)`.
- The returned object is a `map<string, Option<string>>`. `None` is a key explicitly set
  to `undefined`.
- Errors come back as a `Result` carrying `InvalidInput`, `MissingSource(path)`,
  `ParseError(path)` or `Unresolved(keys)`.

Two behaviours of the code are easy to miss, and the model keeps both:

- Requested keys may repeat. The code keeps duplicates in the missing list and in the
  error message, and so does the model.
- Files are checked and parsed even when no key is missing any more. So a later missing
  or unparseable file still fails the call.

## Model

| member | source | states |
|---|---|---|
| `ArrayUtil.ArrayDiff` | envReader/envReader.js:84-91 | the result is never longer than `a` and holds exactly the elements of `a` that are not in `b` |
| `ArrayUtil.ArrayDiffCongruent` | envReader/envReader.js:85-90 | the difference depends on `b` only through which elements of `a` it holds, so a lookup table built from `b` gives the same result as `b` itself |
| `ArrayUtil.ArrayDiffIsSubsequence` | envReader/envReader.js:84-91 | the result is a subsequence of `a`, so `a`'s order is kept |
| `ArrayUtil.ArrayDiffCount` | envReader/envReader.js:84-91 | an element outside `b` keeps its multiplicity from `a`; an element of `b` occurs zero times |
| `ArrayUtil.ArrayDiffAppend` | envReader/envReader.js:90 | the difference distributes over concatenation, so it filters element by element |
| `ArrayUtil.ArrayDiffTwice` | envReader/envReader.js:53 | removing `b` and then `c` equals removing `b + c` at once, so recomputing from the previous missing list equals recomputing from the requested keys |
| `EnvReader.FromEnvironment` | envReader/envReader.js:23-29 | the object holds only requested keys, holds a requested key exactly when the environment defines it (even as the empty string), with the environment's value, and the first missing list is the requested keys the environment lacks; `ResolveMatchesExpected` ties it to the reference's state before any file |
| `EnvReader.Normalize` | envReader/envReader.js:31-35 | an array is consulted as given; a bare string or any other value yields at most one entry, always a path, so only an array can hold a non-string entry |
| `EnvReader.Supplied` | envReader/envReader.js:48-51 | a parsed file supplies a key exactly when the key is still missing and the file defines it, with the file's value; `ParsedFileExtendsPartial` ties it to the reference |
| `EnvReader.Consult` | envReader/envReader.js:36-64 | the loop over the files never fails with unresolved keys and fails only on a non-empty list; on success the missing list only shrank, no key left the object, and once no key is both resolved and missing, no value in the object is ever overwritten; `ConsultMatches` proves it equal to the first failure or the reference state |
| `EnvReader.Undefined` | envReader/envReader.js:69 | the keys set to `undefined` are exactly the missing keys, each with the `undefined` marker |
| `EnvReader.Finish` | envReader/envReader.js:67-76 | the call fails exactly when keys are missing and gaps are not tolerated, with the missing list as error; otherwise every missing key is added as `undefined` and every other entry keeps its value; `FinishMatches` ties it to the reference |
| `EnvReader.Resolve` | envReader/envReader.js:18-77 | an unresolved-keys error arises only in strict mode and lists at least one key; any other error needs a non-empty file list; on success every requested key the environment defines keeps the environment's value; `ResolveMatchesExpected` proves it equal to the reference `Expected` |
| `EnvReader.ReadEnvironment` | envReader/envReader.js:23-26 | the object holds exactly the requested keys the environment defines, with the environment's values |
| `EnvReader.FillMissing` | envReader/envReader.js:48-51 | every missing key the parsed file defines gets the file's value; every other entry is unchanged |
| `EnvReader.RecomputeMissing` | envReader/envReader.js:53 | after a file fills keys, the object still holds only requested keys, and the recomputed list is the requested keys not in the object |
| `EnvReader.ConsultFiles` | envReader/envReader.js:36-64 | the loop over the files returns the fold `Consult`, and on success the missing list is exactly the requested keys not in the object, in request order |
| `EnvReader.MarkUndefined` | envReader/envReader.js:67-69 | every key still missing is added with the `undefined` marker; every other entry is unchanged |
| `EnvReader.ReadEnv` | envReader/envReader.js:18-77 | the imperative resolution returns exactly the fold `Resolve` for every input |
| `EnvReaderSpec.EntryFailure` | envReader/envReader.js:37-61 | one entry raises no error exactly when it is a path whose file parsed, or whose file is missing while missing files are skipped; the error it raises is never an unresolved-keys error |
| `EnvReaderSpec.FirstFailure` | envReader/envReader.js:36-64 | the error, if any, is never an unresolved-keys error and needs a non-empty list; `FirstFailureAt` and `FirstFailureNone` prove that it is the error of the first entry that cannot be consulted |
| `EnvReaderSpec.LookupAfterParsed` | envReader/envReader.js:48-51 | after one more parsed file, a key keeps its earlier value if it had one, and otherwise takes the file's value if the file defines it |
| `EnvReaderSpec.SkippedFileKeepsPartial` | envReader/envReader.js:55-58 | consulting a missing file that is skipped adds no value |
| `EnvReaderSpec.ParsedFileExtendsPartial` | envReader/envReader.js:48-53 | consulting a parsed file adds its values for exactly the keys nothing earlier defined |
| `EnvReaderSpec.ConsultMatches` | envReader/envReader.js:36-64 | the loop over the files fails with the first failing entry's error, or else ends holding every key's first value and the list of keys with none |
| `EnvReaderSpec.MissingAreUnresolvable` | envReader/envReader.js:67-72 | the final missing list is the requested keys that neither the environment nor any file defines, in request order |
| `EnvReaderSpec.FinishMatches` | envReader/envReader.js:67-76 | the final step returns the unresolved-keys error exactly when gaps exist and are not tolerated, and otherwise the reference object |
| `EnvReaderSpec.ResolveMatchesExpected` | envReader/envReader.js:18-77 | the fold equals the declarative reference for every input |
| `EnvReaderProperties.FirstFailureAt` | envReader/envReader.js:36-61 | when entry `i` cannot be consulted and every earlier one can, the first failure of the list is entry `i`'s own error |
| `EnvReaderProperties.FirstFailureNone` | envReader/envReader.js:36-64 | no entry fails if and only if every entry can be consulted |
| `EnvReaderProperties.FirstValueAt` | envReader/envReader.js:48-53 | when file `i` is the first parsed file defining a key, the key's file value is the one in file `i` |
| `EnvReaderProperties.FirstValueNone` | envReader/envReader.js:48-53 | no file supplies a key if and only if no parsed file defines it |
| `EnvReaderProperties.EnvironmentWins` | envReader/envReader.js:23-26 | on success, a requested key the environment defines (even as the empty string) maps to the environment's value, whatever the files hold |
| `EnvReaderProperties.FirstMatchWins` | envReader/envReader.js:36-53 | on success, a key the environment lacks maps to the value from the earliest parsed file defining it, so later files never overwrite it |
| `EnvReaderProperties.UndefinedIffNowhereDefined` | envReader/envReader.js:67-69 | on success, a requested key is present, and it is `undefined` if and only if neither the environment nor any parsed file defines it |
| `EnvReaderProperties.MissingFileIsFatal` | envReader/envReader.js:55-61 | with `skipMissingFiles` false, the first missing file after consultable entries fails the call with its path, whatever follows it |
| `EnvReaderProperties.UnparseableFileIsFatal` | envReader/envReader.js:43-46 | an unparseable file after consultable entries fails the call with its path, under either flag |
| `EnvReaderProperties.NonStringEntryIsInvalid` | envReader/envReader.js:37-39 | a non-string entry after consultable entries fails the call with `InvalidInput` |
| `EnvReaderProperties.SkippedFileIsAsIfAbsent` | envReader/envReader.js:55-58 | with `skipMissingFiles` true, a missing file gives the same outcome as removing it from the list |
| `EnvReaderProperties.SinglePathIsOneElementList` | envReader/envReader.js:31-33 | a bare path behaves exactly like a one-element list |
| `EnvReaderProperties.OtherArgumentReadsOnlyEnvironment` | envReader/envReader.js:31-35 | an argument that is neither a string nor an array reads no file: the result is the environment's values, and the gaps are the keys the environment lacks, in order |
| `EnvReaderProperties.ResultDomain` | envReader/envReader.js:67-76 | on success the object's keys are exactly the requested keys, and with `ignoreMissingKeys` false every value is defined |
| `EnvReaderProperties.TolerantCallFailsOnlyOnEntries` | envReader/envReader.js:67-69 | with `ignoreMissingKeys` true, the call succeeds if and only if every entry can be consulted, and never fails for an unresolved key |
| `EnvReaderProperties.Completeness` | envReader/envReader.js:67-74 | when every entry can be consulted and every key is defined somewhere, the strict call succeeds |
| `EnvReaderProperties.UnresolvedMeansGaps` | envReader/envReader.js:67-73 | an unresolved-keys error happens only with `ignoreMissingKeys` false, after every entry was consulted, and lists a non-empty set of keys |
| `EnvReaderProperties.UnresolvedListsMissingKeys` | envReader/envReader.js:67-72 | the error's list is `arrayDiff(keys, resolvable keys)`: a subsequence of the request, holding exactly the keys nothing defines, each as often as requested |

## Left out

- Reading `process.env` (lines 24-25) is global process state. The environment is passed in as an immutable map.
- `fs.existsSync` (line 42) and `readDotEnvFile`/`dotenv.config` (lines 43, 79-81) are file-system I/O and a foreign library. They are one abstract `Loader` input per path. The `.env` grammar is not modelled.
- `dotenv.config` also writes the parsed values into `process.env`. That cannot change the result of the same call, because the environment is read before any file. It can change later calls, which the model does not capture.
- The `console.info` notice for a skipped file (line 57) has no effect on the result, so it is not modelled.
- Error messages are not reproduced word for word. Each error kind carries the path, or the list of keys that the message joins with commas.
- JavaScript plain-object quirks are not modelled. Key lookups on `parsed`, on the result object and on `arrayDiff`'s lookup table (lines 49, 85-90) can hit inherited names such as `constructor` or `__proto__`. The model uses true map and set membership.
- The second argument of `arrayDiff` is a set in the model, not an array. The source only uses it for membership.
- The JavaScript result object has an own-key order: environment keys first, then keys filled from files, then keys set to `undefined`, with integer-like keys ahead of the rest. `map<string, Option<string>>` has no order. The function never reads this order itself, but a caller that lists the keys can see it.
- The flags `skipMissingFiles` and `ignoreMissingKeys` default to `false` (line 18) and are tested for truthiness (lines 56, 68). The model takes plain `bool`s, so default arguments and non-boolean truthy values are not modelled.
- Dynamic typing outside the three argument shapes is not modelled, for example a non-array `keys`. The cases modelled are a string, an array whose entries are strings or not, and any other value.
