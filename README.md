# Hiera's lookup engine (`Hiera::Backend`) in Dafny

This project models the core of Hiera's `Hiera::Backend`, the engine that
turns a key lookup into an answer. The model follows the behaviour that
`spec/unit/backend_spec.rb` pins down. It covers:

- **`parse_string`** (module `Interpolation`). It replaces each `%{key}`
  token by the key's value. The key is looked up exactly as written: in the
  scope first, then in `extra_data`.
  - `nil` and `:undefined` mean "no value"; `false` is a value.
  - A key with no value becomes `""`.
  - A value that is a string is interpolated in turn. The keys being
    followed form a chain, and a key met again in its own chain is an
    interpolation loop. The loop is reported with the chain's keys in the
    order they were followed.
  - Termination rests on a budget: the number of scope and `extra_data`
    keys not yet on the chain.
- **`parse_answer`** (module `Answers`). It interpolates every string of an
  answer, through arrays and through hash keys and values, at any depth.
  Other scalars are passed through unchanged.
- **`resolve_answer`**. An array lookup's answer is flattened and
  de-duplicated, keeping first occurrences. Any other lookup's answer is
  returned as it is.
- **`merge_answer`**. It dispatches on `:merge_behavior`. `:native` is
  Ruby's `Hash#merge`. `:deep` and `:deeper` call the deep_merge library's
  `deep_merge` and `deep_merge!`.
- **`datasources`** (module `Hierarchy`). It gives the levels to search:
  - the override, if any, comes first;
  - then the hierarchy passed in, else the configured `:hierarchy`, else
    `"common"`;
  - each template is interpolated with the scope, and empty names are
    dropped;
  - if nothing is left, the single level `"common"` is searched.
  It is written as a method with a loop (`Datasources`, `CollectLevels`),
  proved against the function `Levels`.
- **`lookup`** (module `Lookup`). It asks each configured backend for the
  key, in the configured order. In this model the engine itself walks the
  levels of `datasources` for each backend (see "Left out"):
  - A priority (or unset) lookup stops at the first answer.
  - An array lookup collects every answer.
  - A hash lookup merges every answer with `merge_answer`.
  - When nothing is found, the default is returned, interpolated.
  - `BackendCache` is the process-wide `@backends` registry. It is a class
    whose `cache` map and `started` log are updated in place as backends are
    created. Its `Lookup` method loops over the configured backends and
    `AskLevels` loops over the levels. Both are proved against the
    functions `LookupWalk` and `WalkLevels`.

In this model a backend is a function from (key, level, scope) to an
answer, `Nil` meaning "no answer". In Hiera a backend is an object whose
`lookup(key, scope, order_override, resolution_type)` walks the levels
itself. The configuration is a value (`Config`): the
`:backends` list, the `:hierarchy`, the `:merge_behavior` and the
deep_merge library's two entry points.

Ruby values are the datatype `Values.Data`. A hash is a list of entries in
insertion order, as Ruby's `Hash` keeps them. `Put` and `Get` model `h[k] = v`
and `h[k]`. A float is kept opaque, as its printed text.

Where the behaviour is not pinned down by an example, the model takes
these choices:

- **Array resolution flattens at every depth.** The array case is modelled
  as Ruby's `[answer].flatten.uniq`, and Ruby's `Array#flatten` flattens all
  levels. The unit example (`["foo", ["foo", "foo"], "bar"]`) gives the
  same result whether one level or every level is flattened.
- **A hash lookup fails on a non-hash answer.** If it meets an answer that
  is neither nil nor a hash, it fails with `NotAHash`. Ruby would raise
  there.
- **`merge_answer` is called with the new answer on the left** and the
  accumulated answer on the right. So under `:native` an earlier backend,
  or a more specific level, wins on a shared key.
- **The default is interpolated with the scope only**, with no
  `extra_data`.
- **`:undefined` in `extra_data` is no value**, as it is in the scope.
- **Each token is resolved on its own.** A token's text is spliced into the
  result and the joined text is not scanned again (see "Left out").

## Model

| member | source | states |
|---|---|---|
| Values.Get | spec/unit/backend_spec.rb:201-213 | `h[k]` finds a value exactly when k is one of the hash's keys, and the entry holding it is in the hash |
| Values.Put | spec/unit/backend_spec.rb:206-213 | `h[k] = v` keeps the key list when k is present and appends k otherwise |
| Values.PutGet | spec/unit/backend_spec.rb:206-213 | after `h[k] = v`, reading k gives v and reading any other key gives what it gave before |
| Values.PutFresh | spec/unit/backend_spec.rb:201-213 | setting a key the hash lacks appends the entry at the end, so insertion order is kept |
| Values.PutKeepsDistinct | spec/unit/backend_spec.rb:201-213 | setting a key keeps a hash's keys distinct |
| Values.LastGet | spec/unit/backend_spec.rb:201-219 | the value that a key ends up with when entries are stored one after another: some value exactly when the key is among the entries' keys |
| Values.LastGetLast | spec/unit/backend_spec.rb:201-219 | an entry with no later entry for its key gives that key's final value |
| Values.Render | spec/unit/backend_spec.rb:125-138 | Ruby's `to_s` of a variable's value: nil renders as "", true and false as "true" and "false", a string as itself, an integer as its decimal string, starting with '-' exactly when negative, arrays and hashes in brackets and braces |
| Interpolation.CloseBrace | spec/unit/backend_spec.rb:155-163 | finds the first `}` at or after a position, or reports that there is none |
| Interpolation.Tokenize | spec/unit/backend_spec.rb:155-163 | a token's name never contains `}` (the token pattern `%{[^}]*}`); with `TokenizeRoundTrip` and `TokenizeFindsEvery` the split is the pattern's left-to-right matches |
| Interpolation.TokenizeRoundTrip | spec/unit/backend_spec.rb:95-100 | cutting a string into literal text and tokens loses nothing: the pieces put back together give the string |
| Interpolation.KeyValue | spec/unit/backend_spec.rb:108-173 | the scope's value when it is neither nil nor :undefined; else extra_data's under the same rule; else no value. false is a value; the key is looked up exactly as written, with no `::` stripped |
| Interpolation.Subst | spec/unit/backend_spec.rb:175-187 | a failure is an interpolation loop whose key list starts with the chain being followed; a longer list runs through one of the tokens being substituted |
| Interpolation.Resolve | spec/unit/backend_spec.rb:175-187 | one token's text: a key on the chain already fails with that chain as the loop; a failure names the key as the next one on the loop |
| Interpolation.Follow | spec/unit/backend_spec.rb:175-187 | following a string value extends the chain by its key; any loop found begins with the chain and then that key |
| Interpolation.LoopClosed | spec/unit/backend_spec.rb:181-187 | a key mentioned by the chain's last value that is already on the chain makes the chain a genuine loop |
| Interpolation.ParseString | spec/unit/backend_spec.rb:90-106 | nil and any non-string are returned unchanged; a string gives a string; a failure is a genuine loop (distinct keys, each value mentioning the next, the last mentioning one of them) entered through one of the string's own tokens |
| InterpolationFacts.TokenizePlain | spec/unit/backend_spec.rb:108-113 | text without `%` is a single literal |
| InterpolationFacts.TokenizeFindsEvery | spec/unit/backend_spec.rb:108-163 | for every string, no literal piece hides a match of `%{[^}]*}`: a `%{` inside a literal has no `}` anywhere after it and lies in the last piece, so every `%{` followed by a `}` opens a token |
| InterpolationFacts.TokenizeNoClose | spec/unit/backend_spec.rb:155-163 | a string without `}` holds no token and is one literal |
| InterpolationFacts.TokenizeTwoTokens | spec/unit/backend_spec.rb:108-113 | `p%{k1}m%{k2}q`, with p, m and q free of `%`, is cut into p, the token k1, m, the token k2, then q |
| InterpolationFacts.SplicedTextNotRescanned | spec/unit/backend_spec.rb:175-179 | the text a token stands for is spliced in and not scanned again: with a = "%", "%{a}{b}" becomes "%{b}", which still holds a token |
| InterpolationFacts.TokenizeOneToken | spec/unit/backend_spec.rb:115-173 | `p%{k}q`, with p and q free of `%`, is cut into p, the token k, then q |
| InterpolationFacts.ParseStringPlain | spec/unit/backend_spec.rb:95-106 | a string without tokens comes back unchanged, whatever the scope |
| InterpolationFacts.OneToken | spec/unit/backend_spec.rb:108-173 | `p%{k}q` interpolates to p, k's text, then q, or fails as resolving k fails |
| InterpolationFacts.ScopeValueWins | spec/unit/backend_spec.rb:108-113 | a string value in the scope is used, whatever extra_data holds |
| InterpolationFacts.ExtraDataFillsIn | spec/unit/backend_spec.rb:115-153 | a key the scope lacks, or holds as nil or :undefined, takes extra_data's value |
| InterpolationFacts.FalseIsAValue | spec/unit/backend_spec.rb:130-138 | false, in the scope or in extra_data, is a value and reads "false" |
| InterpolationFacts.MissingKeyIsEmpty | spec/unit/backend_spec.rb:125-173 | a key with no value in either map becomes ""; the key is used exactly as written, so no trimmed or shortened key is tried |
| InterpolationFacts.ResolvePlain | spec/unit/backend_spec.rb:175-179 | a key whose value is a string without tokens stands for that string |
| InterpolationFacts.ResolveAlias | spec/unit/backend_spec.rb:175-179 | a key whose value is exactly another key's token stands for what that key stands for, one step further along the chain |
| InterpolationFacts.TwoKeyLoop | spec/unit/backend_spec.rb:181-187 | two keys whose values name each other fail with the loop [first, second], in visit order |
| InterpolationFacts.ResolveInChain | spec/unit/backend_spec.rb:181-187 | a key already on the chain reports the chain itself as the loop |
| InterpolationFacts.ParseStringFailsIffLoop | spec/unit/backend_spec.rb:175-187 | interpolation fails exactly when the string's tokens lead into a loop of keys (a chain of distinct keys whose last value mentions one of them); otherwise it succeeds |
| InterpolationFacts.LoopFails | spec/unit/backend_spec.rb:181-187 | any loop of keys that a token of the string leads into makes interpolation fail, whatever its length |
| InterpolationFacts.SinglePassSuffices | spec/unit/backend_spec.rb:108-173 | when no variable's value holds a token, interpolation equals a single pass of substitution (the reference definition `SinglePass`) and never fails |
| Answers.ParseAnswer | spec/unit/backend_spec.rb:190-239 | integers, floats, booleans, nil and symbols are unchanged; a string is `parse_string`'s result; an array keeps its length, a hash stays a hash with distinct keys; a failure is a genuine loop |
| Answers.ParseAll | spec/unit/backend_spec.rb:196-199 | each element of an array is parsed, in order, to the element at the same position |
| Answers.ParseArray | spec/unit/backend_spec.rb:196-199 | an array parses element by element, in place, and fails exactly when one of its elements fails |
| Answers.ParseArrayEach | spec/unit/backend_spec.rb:196-199 | an array whose elements parse to ys parses to the array ys |
| Answers.ParseEntries | spec/unit/backend_spec.rb:201-219 | storing the parsed entries one by one: every key of the hash parses, and what it parses to is a key of the result; the keys are distinct and there are no more of them than entries |
| Answers.ParsedPairs | spec/unit/backend_spec.rb:201-219 | the hash's entries with each key and value parsed, in order, one pair per entry |
| Answers.ParseEntriesIsMerge | spec/unit/backend_spec.rb:201-219 | parsing a hash's entries into a hash is storing their parsed pairs one by one, or the first loop met |
| Answers.ParseHash | spec/unit/backend_spec.rb:201-219 | a hash parses to the hash whose keys are the parsed keys, each once, where it first occurs, and where each key holds the parsed value of the last entry whose key parses to it; it fails exactly when one of its keys or values fails |
| Answers.ParseHashEach | spec/unit/backend_spec.rb:201-219 | a hash whose entries parse to entries with distinct keys parses to exactly those entries, in the same order |
| Answers.StoredKeys | spec/unit/backend_spec.rb:201-219 | pairs stored one by one into an empty hash leave each key once, where it first occurs |
| Answers.StoredValues | spec/unit/backend_spec.rb:201-219 | pairs stored one by one into an empty hash leave each key with the value of its last pair |
| Answers.ParseAnswerPlain | spec/unit/backend_spec.rb:190-239 | an answer with nothing to interpolate is returned exactly as it was |
| Answers.ParseOneEntry | spec/unit/backend_spec.rb:206-214 | a one-entry hash parses to the entry of its parsed key and parsed value |
| Answers.Flatten | spec/unit/backend_spec.rb:243-245 | Ruby's `flatten` of one value: the result holds no array; a value that is not an array gives itself alone (with `FlattenElement`, `FlattenAllAppend`) |
| Answers.FlattenAll | spec/unit/backend_spec.rb:243-245 | the flattening of each element in turn: the result holds no array |
| Answers.FlattenAllAppend | spec/unit/backend_spec.rb:243-245 | flattening runs left to right: flattening xs + ys is flattening xs, then ys |
| Answers.FlattenElement | spec/unit/backend_spec.rb:243-245 | a single element flattens to its own flattening, and a non-array to itself |
| Answers.FlattenKeepsLeaves | spec/unit/backend_spec.rb:243-245 | flattening keeps exactly the non-array values found inside, at any depth |
| Answers.FlattenFlat | spec/unit/backend_spec.rb:243-245 | an array holding no array flattens to itself |
| Answers.Uniq | spec/unit/backend_spec.rb:243-245 | Ruby's `uniq`: no repetitions, the same values as the input, in order of first occurrence |
| Answers.UniqSnoc | spec/unit/backend_spec.rb:243-245 | one more value at the end is kept by uniq only if it is new |
| Answers.UniqNoDup | spec/unit/backend_spec.rb:243-245 | a sequence without repetitions is its own uniq |
| Answers.ResolveAnswer | spec/unit/backend_spec.rb:242-249 | an array lookup gives `uniq` of the flattened answer: a flat array without repetitions, holding exactly the flattened values, ordered by their first occurrence in the flattened answer; any other lookup returns the answer unchanged |
| Answers.ResolveArrayContents | spec/unit/backend_spec.rb:242-245 | the values of an array lookup's result are exactly the values found inside the answer |
| Answers.ResolveIdempotent | spec/unit/backend_spec.rb:242-249 | resolving twice is resolving once |
| Answers.ShallowMerge | spec/unit/backend_spec.rb:408-412 | `Hash#merge`: the keys are those of both hashes, and left's keys keep their places ahead of the new ones |
| Answers.ShallowMergeGet | spec/unit/backend_spec.rb:408-412 | where both hashes have a key, right's value wins; elsewhere it is the value of the hash that has the key |
| Answers.ShallowMergeLast | spec/unit/backend_spec.rb:408-412 | where right has a key, possibly repeated, its last value wins; elsewhere left's value stays |
| Answers.ShallowMergeKeys | spec/unit/backend_spec.rb:408-412 | the merged keys are left's keys, then right's new keys, each once, in order of first occurrence |
| Answers.ShallowMergeDistinct | spec/unit/backend_spec.rb:408-412 | merging keeps keys distinct |
| Answers.ShallowMergeDisjoint | spec/unit/backend_spec.rb:408-412 | merging hashes that share no key keeps every entry of both, left's first |
| Answers.MergeAnswer | spec/unit/backend_spec.rb:401-424 | `:native` is the shallow merge, with right winning and the union of keys; `:deep` is `deep_merge` and `:deeper` is `deep_merge!` of the library |
| Hierarchy.Templates | spec/unit/backend_spec.rb:36-71 | the override, when given, comes first; then the hierarchy passed in, else the configured hierarchy when set and not empty, else "common" |
| Hierarchy.LevelName | spec/unit/backend_spec.rb:73-76 | a level template is interpolated with the scope alone; a failure is a genuine loop |
| Hierarchy.NonEmptyLevels | spec/unit/backend_spec.rb:73-87 | every template interpolates without a loop, and each non-empty name it gives is among the levels; no level name is empty and there are no more names than templates |
| Hierarchy.Levels | spec/unit/backend_spec.rb:36-87 | the levels are never empty and never hold ""; every template's non-empty interpolated name is among them; when no template leaves a name the levels are exactly ["common"]; a failure is a genuine loop |
| Hierarchy.Datasources | spec/unit/backend_spec.rb:36-87 | the method's result is `Levels` |
| Hierarchy.CollectLevels | spec/unit/backend_spec.rb:36-87 | the loop that interpolates the templates one by one computes `NonEmptyLevels` |
| Hierarchy.PlainLevelName | spec/unit/backend_spec.rb:73-76 | a template without tokens names its level as written |
| Hierarchy.PlainTemplatesKept | spec/unit/backend_spec.rb:36-52 | plain, non-empty templates are searched exactly as listed, in order |
| Hierarchy.PlainLevels | spec/unit/backend_spec.rb:36-71 | with plain templates, the levels are the override, then the given, configured or default hierarchy |
| Hierarchy.OverrideFirst | spec/unit/backend_spec.rb:62-71 | a plain override is always the first level searched |
| Hierarchy.EmptyLevelSkipped | spec/unit/backend_spec.rb:78-87 | a template that interpolates to "" is skipped |
| Hierarchy.LevelKept | spec/unit/backend_spec.rb:73-87 | a template that interpolates to a non-empty name is searched under that name, ahead of the levels of the templates after it |
| Hierarchy.NonEmptyLevelsAppend | spec/unit/backend_spec.rb:36-87 | the levels of two lists of templates are the levels of the first, then those of the second; a loop in the first fails both |
| Hierarchy.SearchedInPlace | spec/unit/backend_spec.rb:36-87 | a template anywhere in the hierarchy that interpolates to a non-empty name is searched under that name, right after the names of the templates ahead of it |
| Hierarchy.AllEmptyFallsBack | spec/unit/backend_spec.rb:78-87 | when every template interpolates to "", no name is left (so `Levels` falls back to "common") |
| Lookup.BackendCache.Lookup | spec/unit/backend_spec.rb:258-398 | the loop over the configured backends computes `LookupWalk` from the cache as it was: the new cache, the log of backends started and the result are the walk's; `Valid` (each backend started at most once, every started backend cached) is kept |
| Lookup.BackendCache.Ask | spec/unit/backend_spec.rb:258-266 | a backend not yet cached is created, cached and logged; it is then asked at each level, one step of `LookupWalk` |
| Lookup.AskLevels | spec/unit/backend_spec.rb:268-358 | the loop over the levels computes `WalkLevels` |
| Lookup.Step | spec/unit/backend_spec.rb:290-358 | one answer taken into account: nil changes nothing; a priority or unset lookup stops with it; an array lookup appends it; a hash lookup fails on a non-hash and otherwise merges it under the answers so far, those winning on shared keys under `:native` |
| Lookup.WalkBackends | spec/unit/backend_spec.rb:290-358 | a search that has stopped is not changed, and a search still going on was going on before |
| Lookup.Visit | spec/unit/backend_spec.rb:258-300 | one configured backend: it ends up cached, it is logged as started exactly when it was not cached, the cache only grows, and the search is its level walk (or the hierarchy's loop failure) |
| Lookup.LookupWalk | spec/unit/backend_spec.rb:258-358 | a whole lookup only adds to the cache and the log: what was cached stays, each backend started was not cached and has a class |
| Lookup.Finish | spec/unit/backend_spec.rb:360-398 | the result once the search is over: the failure, else the answer resolved for the resolution type, else, when nothing was found, the default parsed with the scope |
| Lookup.WalkLevelsIsFold | spec/unit/backend_spec.rb:290-358 | asking one backend at each level is folding the search over that backend's answers |
| Lookup.WalkIsFold | spec/unit/backend_spec.rb:290-358 | a lookup's search is the fold over the answers of every backend asked, in backend order then level order, whatever the cache held |
| Lookup.FoldAppend | spec/unit/backend_spec.rb:290-358 | once the search has stopped, further answers change nothing |
| Lookup.PriorityFold | spec/unit/backend_spec.rb:290-300 | a priority or unset search ends with the first answer that is not nil |
| Lookup.ArrayFold | spec/unit/backend_spec.rb:302-311 | an array search collects every answer that is not nil, in order |
| Lookup.HashMismatch | spec/unit/backend_spec.rb:313-334 | a hash search fails at the first answer that is neither nil nor a hash |
| Lookup.NativeHashFold | spec/unit/backend_spec.rb:325-334 | with `:native` merging, a hash search gives a hash with distinct keys in which each key has the value of the earliest answer holding it |
| Lookup.PriorityLookup | spec/unit/backend_spec.rb:268-300 | a priority or unset lookup returns the first answer found; with none, the default interpolated |
| Lookup.ArrayLookup | spec/unit/backend_spec.rb:302-345 | an array lookup returns every answer found, in order, flattened and without repetitions; with none, the default interpolated |
| Lookup.NativeHashLookup | spec/unit/backend_spec.rb:313-334 | a `:native` hash lookup returns a hash in which each key has the earliest hash's value; with no hash found, the default interpolated |
| Lookup.LevelsFailureFailsLookup | spec/unit/backend_spec.rb:73-87 | a hierarchy whose interpolation fails makes any lookup that asks a backend fail the same way |
| Lookup.WalkGrowsCache | spec/unit/backend_spec.rb:258-266 | a lookup only adds to the cache: what was cached stays, and each backend it starts was not cached and has a class |
| Lookup.CachedStartsNothing | spec/unit/backend_spec.rb:258-266 | with every configured backend cached, a lookup starts none and leaves the cache as it was |
| Lookup.FullWalkCachesAll | spec/unit/backend_spec.rb:258-266 | a lookup that asks every backend leaves each configured backend with a class in the cache |
| Lookup.RepeatStartsNothing | spec/unit/backend_spec.rb:258-266 | after a lookup that asked every backend (one that did not stop early), the same lookup run again starts no backend; that a backend is started at most once in general is `BackendCache.Valid` (`started` has no repetitions) |
| BackendExamples.TwoTokens | spec/unit/backend_spec.rb:108-113 | "replace %{part1} and %{part2}" gives "replace value of part1 and value of part2" |
| BackendExamples.FromExtraData | spec/unit/backend_spec.rb:115-118 | "test_%{rspec}_test" with rspec only in extra_data gives "test_extra_test" |
| BackendExamples.ScopeBeforeExtraData | spec/unit/backend_spec.rb:120-123 | the scope's "test" is preferred to extra_data's "fail" |
| BackendExamples.NilUndefinedFalse | spec/unit/backend_spec.rb:125-153 | nil and :undefined give "", false gives "false", and :undefined in the scope falls back to extra_data |
| BackendExamples.ExactKeys | spec/unit/backend_spec.rb:155-173 | keys with "::" and whitespace are looked up as written, with no shortened retry |
| BackendExamples.RecursiveLookup | spec/unit/backend_spec.rb:175-179 | rspec → %{first} → %{last} → final gives "test_final_test" |
| BackendExamples.InfiniteLoop | spec/unit/backend_spec.rb:181-187 | first ↔ second fails with the loop [first, second] |
| BackendExamples.InterpolatedHashKey | spec/unit/backend_spec.rb:206-209 | {"%{rspec}" => "test"} becomes {"foo" => "test"} |
| BackendExamples.ArrayElementsInterpolated | spec/unit/backend_spec.rb:196-199 | ["test_%{rspec}_test", "test_%{rspec}_test", ["test_%{rspec}_test"]] becomes ["test_test_test", "test_test_test", ["test_test_test"]] |
| BackendExamples.HashValuesInterpolated | spec/unit/backend_spec.rb:201-204 | {"foo" => "test_%{rspec}_test", "bar" => "test_%{rspec}_test"} becomes {"foo" => "test_test_test", "bar" => "test_test_test"} |
| BackendExamples.NestedHashKey | spec/unit/backend_spec.rb:211-214 | {"topkey" => {"%{rspec}" => "test"}} with rspec = "foo" becomes {"topkey" => {"foo" => "test"}} |
| BackendExamples.MixedStructure | spec/unit/backend_spec.rb:216-219 | strings are interpolated inside a hash that holds an array |
| BackendExamples.TokenKey | spec/unit/backend_spec.rb:206-214 | a hash key that is one token is replaced by the key's value |
| BackendExamples.ScalarsUnchanged | spec/unit/backend_spec.rb:221-239 | 1, 0.233, true and false are passed unchanged |
| BackendExamples.ResolveExamples | spec/unit/backend_spec.rb:242-249 | ["foo", ["foo", "foo"], "bar"] resolves to ["foo", "bar"] for :array and to itself for :priority |
| BackendExamples.ResolveNested | spec/unit/backend_spec.rb:242-249 | the same for any two distinct scalars |
| BackendExamples.GivenHierarchy | spec/unit/backend_spec.rb:37-44 | the hierarchy ["one", "two"] passed in is searched as given |
| BackendExamples.ConfiguredHierarchy | spec/unit/backend_spec.rb:46-52 | the configured hierarchy "test" is searched |
| BackendExamples.DefaultHierarchy | spec/unit/backend_spec.rb:54-60 | with no hierarchy anywhere, only "common" is searched |
| BackendExamples.OverrideAhead | spec/unit/backend_spec.rb:62-71 | the override comes ahead of "common" |
| BackendExamples.EmptyOverrideSkipped | spec/unit/backend_spec.rb:78-87 | an override "%{rspec}" that interpolates to "" leaves only "common" |
| BackendExamples.InterpolatedOverride | spec/unit/backend_spec.rb:62-76 | an override "%{env}" with env = "prod" is searched as "prod", ahead of "common" |
| BackendExamples.EarliestBackendWins | spec/unit/backend_spec.rb:347-358 | a priority lookup takes the first backend's answer |
| BackendExamples.NilAnswerPassedOver | spec/unit/backend_spec.rb:290-300 | a backend with no answer is passed over for the next one |
| BackendExamples.ArrayFromAllBackends | spec/unit/backend_spec.rb:336-345 | ["a", "b"] and ["c", "d"] give ["a", "b", "c", "d"] |
| BackendExamples.HashFromAllBackends | spec/unit/backend_spec.rb:325-334 | a `:native` hash lookup over {"a" => "answer"} and {"b" => "bnswer"} gives a hash holding both entries |
| BackendExamples.DefaultWhenNothingFound | spec/unit/backend_spec.rb:370-398 | with no answer, the default is returned interpolated, keeping its string, array or hash shape |
| BackendExamples.DefaultInterpolated | spec/unit/backend_spec.rb:370-377 | the default "test_%{rspec}" with rspec = "test" comes back as "test_test" |
| BackendExamples.NativeMergeExample | spec/unit/backend_spec.rb:408-412 | {"a" => "answer"} merged with {"b" => "bnswer"} gives both entries |

## Left out

- `datadir` and `datafile` (lines 6-34) are path building and file
  checks. They are I/O, and are not modelled.
- `Config.load`, `Config.load_backends` and finding backend classes by
  `Backend.constants` are left out. They load configuration and use Ruby
  reflection. The configuration is a `Config` value, and the backend classes
  that exist are the map `plugins`.
- The YAML backend and its file parsing are left out. A backend is an
  abstract function from key, level and scope to an answer.
- The mechanics of `deep_merge` and `deep_merge!` are the library's own.
  `MergeAnswer` takes them as function parameters (`DeepMergeLib`).
  - `deep_merge!` updates its receiver in place. Here it is a function on
    values.
- Floats are opaque. `Float` holds the value's printed text and is only
  passed through.
- Logging (`Hiera.debug`, `Hiera.warn`) is left out, and so is the "backend
  starting" message. The `started` log of `BackendCache` records which
  backends were created, and that is what the message shows.
- `Values.Inspect` renders arrays and hashes in `inspect` form without
  escaping quotes or special characters inside strings.
- Hash equality in the model is order-sensitive: two hashes with the same
  entries in a different order are different values. Ruby's `Hash#==`
  ignores order.
- `Lookup.Step` does not check that an array lookup's answers have a
  consistent type. An answer that is not an array is appended as one
  element.
- `Answers.ResolveAnswer` does not drop nil elements (no `compact`).
- `Interpolation.ParseString` does not promise that its result holds no
  token. Each token is resolved depth-first with its own chain of keys,
  and its text is spliced in without scanning the joined text again. So
  `"%{a}{b}"` with a = `"%"` and b = `"x"` gives `"%{b}"`, not `"x"`
  (`SplicedTextNotRescanned`). Likewise a non-string value whose rendered
  text holds `%{...}` is not expanded. The unit examples never splice a
  token together across a boundary, so they cannot tell the two readings
  apart.
- `Lookup.BackendCache.Lookup` walks the levels itself. In Hiera,
  `lookup` calls each backend's `lookup(key, scope, order_override,
  resolution_type)` once (lines 272, 365, 374), and the backend walks the
  levels of `datasources` and combines its own answers. Here a backend
  answers for one level and sees neither `order_override` nor
  `resolution_type`; the engine combines every level's answer itself.
- `Hierarchy.Datasources` collects the levels in the order they would be
  yielded rather than yielding them to a block. So all the levels are
  interpolated before any backend is asked.
- The mocks and call-count expectations of the examples are not modelled.
  This covers `expects(...).once` on the backend-starting message and
  `returns(...)` stubs.
  - The cache examples are stated instead as properties of the cache and
    the `started` log: `WalkGrowsCache`, `CachedStartsNothing`,
    `FullWalkCachesAll` and `RepeatStartsNothing`.
- "does not modify the input data" (lines 95-100) holds by construction:
  every value is immutable.
