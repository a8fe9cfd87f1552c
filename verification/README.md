# Normalised HTTP header hash

A Dafny model of `Xingfus::NormalizedHeaderHash`, the header map of the
Xingfus HTTP client. It is a Ruby `Hash` whose keys are rewritten into
canonical HTTP-header spelling (`content_type`, `CONTENT-TYPE` and
`Content-Type` all become `Content-Type`) before they are stored, read,
queried or deleted.

Two modules:

- `HeaderName` (`header_name.dfy`) models the private `convert_key`. Each
  step of the Ruby pipeline is a function: `Tr` for `tr('_', '-')`; `Split`
  for `split('-')`, which is `Fields` followed by `DropTrailingEmpty`;
  `Capitalize` and `CapitalizeEach` for `map!(&:capitalize)`; and `Join`
  for `join('-')`. `Split` keeps Ruby's rule that trailing empty fields are
  dropped while leading and inner ones are kept. The pipeline is proved
  equal to an independent character-by-character definition,
  `TitleCase(StripTrailingHyphens(Tr(key)))`. Idempotence, the shape of the
  output (`IsHeaderName`) and an exact characterisation of when two keys
  normalise alike all follow from that.
- `NormalizedHeaderHash` (`normalized_header_hash.dfy`) models the hash as
  an immutable value `HeaderHash<V>` over a `map<string, V>`. Its invariant
  `Valid()` says that every stored key is a fixed point of `ConvertKey`.
  Each Ruby method that changes the receiver returns the changed hash
  instead. A hash passed to `update`, `merge` or the constructor is modelled
  by the sequence of pairs `each_pair` yields. This keeps the rule "the
  later of two pairs naming one header wins" expressible.

`update` calls the overriding `[]=` with an already converted key, so the
key is converted twice. `Update` models that literally, and
`UpdateStoresConverted` shows that the second conversion changes nothing.

## Model

| member | source | states |
|---|---|---|
| HeaderName.Tr | lib/xingfus/normalized_header_hash.rb:55 | `tr('_', '-')` keeps the length and leaves no underscore. A position holds `-` exactly when the input had `-` or `_` there, and every other character is unchanged. |
| HeaderName.CapitalizeEach | lib/xingfus/normalized_header_hash.rb:55 | `map!` with `capitalize` on each segment keeps the number of fields and capitalises each field in place. |
| HeaderName.Capitalize | lib/xingfus/normalized_header_hash.rb:55 | `capitalize` keeps the length. Its first character is not lower-case, no later character is upper-case, and the field still lower-cases to the same text. |
| HeaderName.SplitIgnoresTrailingHyphens | lib/xingfus/normalized_header_hash.rb:55 | `split('-')` yields the fields of the string with its trailing hyphens removed. If only hyphens remain (or nothing), it yields no field at all. |
| HeaderName.JoinFields | lib/xingfus/normalized_header_hash.rb:55 | Joining the hyphen-separated fields of a string with `-` gives the string back. |
| HeaderName.JoinCapitalized | lib/xingfus/normalized_header_hash.rb:55 | Capitalising each hyphen-free field and joining with `-` equals title-casing the joined string. |
| HeaderName.ConvertKeyIsTitleCase | lib/xingfus/normalized_header_hash.rb:54-56 | `convert_key` equals the character-wise reference: `_` becomes `-` and trailing hyphens are dropped. Then each character that opens a field is upper-cased and every other character is lower-cased. |
| HeaderName.ConvertKeyIsHeaderName | lib/xingfus/normalized_header_hash.rb:55 | The output of `convert_key` has no `_` and no trailing `-`. Every field starts with a non-lower-case character and has no upper-case letter after that. |
| HeaderName.ConvertKeyFixedPoint | lib/xingfus/normalized_header_hash.rb:55 | `convert_key` leaves a key unchanged exactly when the key is already a canonical header name. |
| HeaderName.ConvertKeyIdempotent | lib/xingfus/normalized_header_hash.rb:55 | `convert_key(convert_key(k)) == convert_key(k)` for every key, including leading, trailing and doubled separators. |
| HeaderName.ConvertKeySameIff | lib/xingfus/normalized_header_hash.rb:55 | Two keys normalise to the same name exactly when they agree after lower-casing, reading `_` as `-` and ignoring trailing separators. |
| HeaderName.EquivalentKeysConvertEqual | lib/xingfus/normalized_header_hash.rb:55 | Keys that differ only in letter case or in `_` versus `-` normalise to the same name. |
| HeaderName.SplitExamples | lib/xingfus/normalized_header_hash.rb:55 | `split('-')` on the edge cases: `""` and `"--"` give no field, `"a-"` gives `["a"]`, `"-a"` gives `["", "a"]`, and `"a--b"` gives `["a", "", "b"]`. |
| HeaderName.ConvertKeyContentType | lib/xingfus/normalized_header_hash.rb:55 | `content_type`, `CONTENT-TYPE` and `Content-Type` all normalise to `Content-Type`. |
| HeaderName.ConvertKeyEdgeCases | lib/xingfus/normalized_header_hash.rb:55 | `-foo` becomes `-Foo`, `foo_` becomes `Foo`, `a__b` becomes `A--B`, and `-_-` becomes the empty name. |
| NormalizedHeaderHash.HasKey | lib/xingfus/normalized_header_hash.rb:16-22 | `key?` (also `include?`, `has_key?` and `member?`) on a valid hash holds exactly when some stored key names the same header as the argument. |
| NormalizedHeaderHash.Get | lib/xingfus/normalized_header_hash.rb:24-26 | `[]` finds a value exactly when `key?` holds for the same key. On a valid hash, the value it finds is the one stored under the key that converts like the argument. |
| NormalizedHeaderHash.Fetch | lib/xingfus/normalized_header_hash.rb:12-14 | `fetch` succeeds exactly when the header is present or a default is given. A present header yields the value `[]` reads. A missing one yields the default, or else a `KeyError` naming the converted key. |
| NormalizedHeaderHash.Store | lib/xingfus/normalized_header_hash.rb:28-30 | `[]=` puts the value under the converted key and adds no other key. Every other entry is unchanged, and the invariant is preserved. |
| NormalizedHeaderHash.Delete | lib/xingfus/normalized_header_hash.rb:49-51 | `delete` removes exactly the converted key, leaves every other entry unchanged, returns the stored value, or `None` (Ruby's `nil`) when the header is absent, and preserves the invariant. |
| NormalizedHeaderHash.PutAll | lib/xingfus/normalized_header_hash.rb:33-35 | Storing pairs in order with the superclass `[]=`: the key set grows by the pairs' keys, the last pair for a key gives its value, and untouched keys keep theirs. |
| NormalizedHeaderHash.Update | lib/xingfus/normalized_header_hash.rb:32-39 | `update` and `merge!` preserve the invariant that every stored key is canonical. |
| NormalizedHeaderHash.UpdateStoresConverted | lib/xingfus/normalized_header_hash.rb:32-37 | `update` equals the superclass `[]=` applied in order to the pairs with converted keys. The second conversion inside the overriding `[]=` changes nothing. |
| NormalizedHeaderHash.UpdateSpec | lib/xingfus/normalized_header_hash.rb:32-37 | After `update(other)`, a header is present exactly when it was present before or a pair of `other` names it. The last pair naming a header gives its value, and headers `other` does not name keep their values. |
| NormalizedHeaderHash.UpdateSingle | lib/xingfus/normalized_header_hash.rb:32-37 | `update` with a single pair is the same as `[]=`. |
| NormalizedHeaderHash.Empty | lib/xingfus/normalized_header_hash.rb:3-6 | `new` with its default argument `{}` gives an empty hash that satisfies the invariant. |
| NormalizedHeaderHash.New | lib/xingfus/normalized_header_hash.rb:3-10 | The Hash-taking constructor produces a hash whose keys are all canonical. |
| NormalizedHeaderHash.NewKeys | lib/xingfus/normalized_header_hash.rb:3-10 | The constructed hash holds exactly the converted keys of its argument. |
| NormalizedHeaderHash.EachPair | lib/xingfus/normalized_header_hash.rb:33 | Iterating a hash visits every entry exactly once, with its value, and never visits a key twice. |
| NormalizedHeaderHash.NewOfOwnEntries | lib/xingfus/normalized_header_hash.rb:41-43 | Building a new hash from an enumeration of a valid hash's own entries gives that same hash back. |
| NormalizedHeaderHash.Dup | lib/xingfus/normalized_header_hash.rb:41-43 | `dup` has canonical keys, one for each converted key of the original. For a valid hash it has exactly the same entries. |
| NormalizedHeaderHash.Merge | lib/xingfus/normalized_header_hash.rb:45-47 | `merge` returns a valid hash. For a valid receiver the result equals `update` applied to the receiver, and the receiver itself is a value that does not change. |
| NormalizedHeaderHash.ValidIffHeaderNames | lib/xingfus/normalized_header_hash.rb:28-30 | The hash invariant (every key is a fixed point of `convert_key`) holds exactly when every stored key is a canonical header name. |
| NormalizedHeaderHash.LookupInsensitive | lib/xingfus/normalized_header_hash.rb:12-26 | `key?`, `[]` and `fetch` give the same answer for keys that differ only in letter case or in `_` versus `-`. |
| NormalizedHeaderHash.StoreThenLookup | lib/xingfus/normalized_header_hash.rb:12-30 | After `h[k] = v`, every key that converts like `k` reads `v` through `[]`, `key?` and `fetch`. Every other key reads as it did before. |
| NormalizedHeaderHash.StoreThenLookupEquivalent | lib/xingfus/normalized_header_hash.rb:24-30 | After `h[k] = v`, any respelling of `k` in another case or separator reads `v`. |
| NormalizedHeaderHash.DeleteThenLookup | lib/xingfus/normalized_header_hash.rb:49-51 | After `delete(k)`, no key that converts like `k` is found. Every other key reads as it did before. |
| NormalizedHeaderHash.DeleteUndoesStore | lib/xingfus/normalized_header_hash.rb:49-51 | Deleting a header just added to a hash that lacked it restores the hash and returns the added value. |
| NormalizedHeaderHash.StoreExistingIsIdentity | lib/xingfus/normalized_header_hash.rb:28-30 | Storing a header's current value again under any spelling leaves the hash unchanged. |
| NormalizedHeaderHash.StoreOverwrites | lib/xingfus/normalized_header_hash.rb:28-30 | Two stores under spellings of one header leave only the second value. |

## Left out

- The Hydra request scheduler is not modelled: it is driven by callbacks, re-entrant enqueueing and network completions. `Xingfus::Easy` is not modelled either: it wraps libcurl through a foreign-function interface and performs network I/O.
- NormalizedHeaderHash.Get: returns `None` for a missing key. In Ruby, `initialize` calls bare `super`, which installs the constructor argument as the hash's default value, so `[]` on a missing key returns that object (for a hash made by `dup`, the original hash) rather than `nil`. Default values are not modelled.
- The constructor's non-Hash branch (line 8), which only sets a default value, is not modelled.
- NormalizedHeaderHash.Fetch: models `fetch(key)` and `fetch(key, default)`. The block form is not modelled.
- NormalizedHeaderHash.Delete: the block form of `delete`, which computes the answer for a missing key, is not modelled.
- Ruby `Hash` insertion order of the receiver is not modelled: the receiver is a `map`. `dup` enumerates its entries in an unspecified order, which is sound because a valid hash's keys are distinct canonical names.
- NormalizedHeaderHash.Dup: for a hash that breaks the invariant (which no modelled operation produces), only the key set of the copy is stated, not its values.
- `to_s` is taken as the identity: keys are strings. Symbol and other non-string keys are not modelled.
- HeaderName.Capitalize: only ASCII letters change case, and every other character is left unchanged. Ruby's `capitalize` also maps non-ASCII letters, including title-case forms.
- Superclass `Hash` methods that the class does not override (`store`, `values_at`, `dig`, ...) bypass `convert_key` and are not modelled.
- The block forms of `update`, `merge!` and `merge` run the overrides, which convert the keys and ignore the block: a later pair always wins. The model therefore has no conflict-resolution block.
- Aliasing and mutation: `update` returns the receiver itself in Ruby. Here it returns the updated value, and `merge` leaves the receiver unchanged by construction.
