# AS6507 announced-prefixes normaliser, modelled in Dafny

`scripts/fetch_as6507_prefixes.py` downloads the prefixes that AS6507 announces from
RIPEstat. It turns them into a rule set with one CIDR per line, plus a metadata document.
This project models the pure part of that script in Dafny, and proves what it promises.
That part starts at the decoded JSON document and ends at the content of the two
artifacts:

- **Extraction** (`data.get("data", {}).get("prefixes", [])`): a missing `data` or
  `prefixes` key gives an empty record list. `.get` on something that is not an
  object, or iterating a value that cannot be iterated, aborts the run.
- **Keeping and deduplication** (`{p["prefix"] for p in prefixes if "prefix" in p}`):
  records without the `prefix` key are dropped. The `prefix` values go into a set.
  The model also covers what Python's `in` means for records that are strings, lists
  or scalars.
- **Sorting** (`sorted(..., key=sort_key)`): each kept value is parsed with
  `ip_network(text, strict=False)`. It is ordered by `(version, network address,
  prefix length)`, and host bits are masked off, not rejected. The address ranges
  follow section 3.1 of RFC 4632 (32-bit IPv4 CIDR prefixes) and section 2.3 of
  RFC 4291 (128-bit IPv6 prefixes). One value that does not parse aborts the whole
  normalisation.
- **Rendering**: the text artifact is each prefix followed by `"\n"`. The metadata
  holds the source name, the URL, the AS, a timestamp, `prefix_count` and the list.

Modules: `Wrappers` (Option/Result), `Json` (decoded documents, `.get`, `in`),
`Network` (families, masking, sort key), `Sorting` (insertion sort by key and
uniqueness of sorted key sequences), `Normalizer` (lines 31–32 and `sort_key`),
`Output` (the two artifacts), and `Scenarios` (worked example documents).

The textual CIDR parser inside `ipaddress` is not modelled. It is a parameter
`parse: string -> Option<Literal>`. It yields the family, the address as written
and the prefix length as written. Everything `ip_network` does after reading the
text is modelled in `Network.ToNetwork`: the range checks (prefix length within the
width, address within the family's range) and the `strict=False` masking. The
generation timestamp is a parameter too.

Only an *absent* `data` or `prefixes` key is defaulted. A `data` that is present but
not an object (`null`, a list, …) is not: `.get` on it raises AttributeError, which
the model reports as `Malformed`.

## Model

| member | source | states |
|---|---|---|
| `Json.Lookup` | scripts/fetch_as6507_prefixes.py:31 | `.get(key)` finds a value exactly when the key is present, and returns the value of the last member with that key |
| `Normalizer.Iterate` | scripts/fetch_as6507_prefixes.py:31-32 | `for p in prefixes` fails exactly for null, booleans and numbers; a list yields its items; a string yields its characters, each as a one-character string, in order; an object yields its keys as strings, in order |
| `Normalizer.Records` | scripts/fetch_as6507_prefixes.py:31 | the record list fails, always with `Malformed`, exactly when the document is not an object, or its `data` is present but not an object, or its `prefixes` is present but cannot be iterated; an absent `data` or `prefixes` gives the empty list; a present `prefixes` gives what iterating it yields |
| `Normalizer.MissingPathYieldsEmpty` | scripts/fetch_as6507_prefixes.py:31 | a document without `data`, or whose `data` has no `prefixes`, normalises to the empty list, not to an error |
| `Normalizer.PrefixOf` | scripts/fetch_as6507_prefixes.py:32 | a record contributes a value exactly when it is an object with a `prefix` key, and the value is that key's; an object never aborts the run, so one without the key is simply skipped; a record raises exactly when it is a string containing `prefix`, a list holding the string `prefix`, or a null, boolean or number |
| `Normalizer.PrefixValues` | scripts/fetch_as6507_prefixes.py:32 | the comprehension succeeds exactly when every record passes the `in` test and holds a hashable value; every failure is `Malformed` |
| `Normalizer.PrefixValuesMatchSet` | scripts/fetch_as6507_prefixes.py:32 | the values collected are exactly the members of the set of `prefix` values of the records that have the key |
| `Normalizer.Dedup` | scripts/fetch_as6507_prefixes.py:32 | the set's iteration: no value twice, and the same members as the collected values |
| `Network.Pow2Step` | scripts/fetch_as6507_prefixes.py:24 | the block-size function used by the masking is two to the power `n`: one more bit doubles it |
| `Network.ToNetwork` | scripts/fetch_as6507_prefixes.py:24 | `ip_network` accepts exactly prefix lengths within the width and addresses within range; the network address is a multiple of 2^(width − length), at most the written address, and less than one block below it |
| `Network.MaskUnique` | scripts/fetch_as6507_prefixes.py:24 | the masked address is the only block-aligned address at most the written one and within one block of it |
| `Network.ToNetworkOfValid` | scripts/fetch_as6507_prefixes.py:24 | a network written without host bits parses to itself |
| `Network.ToNetworkIgnoresHostBits` | scripts/fetch_as6507_prefixes.py:24 | two spellings that differ only in host bits parse to the same network |
| `Network.KeyOf` | scripts/fetch_as6507_prefixes.py:26 | the key is the network's version, its network address as an integer, and its prefix length; the version is 4 exactly for an IPv4 network and 6 otherwise; the address lies within the family's range and the length within its width |
| `Network.KeyLeTotalOrder` | scripts/fetch_as6507_prefixes.py:26 | tuple comparison of keys is reflexive, total, antisymmetric and transitive |
| `Normalizer.SortKeyOf` | scripts/fetch_as6507_prefixes.py:23-26 | `sort_key` has a key exactly when the text parses and is in range; the key's address is the written address with host bits cleared |
| `Normalizer.EntryOf` | scripts/fetch_as6507_prefixes.py:23-26 | a kept value has a key exactly when it is a string whose `sort_key` exists |
| `Normalizer.Entries` | scripts/fetch_as6507_prefixes.py:32 | keying every value succeeds exactly when each value has a key; otherwise the error is `BadPrefix` |
| `Sorting.Insert` | scripts/fetch_as6507_prefixes.py:32 | insertion into a sorted list keeps it sorted, adds exactly one occurrence of the entry, and keeps it duplicate-free |
| `Sorting.SortEntries` | scripts/fetch_as6507_prefixes.py:32 | the result is sorted by key, is a permutation of the input, and is duplicate-free when the input is |
| `Sorting.SortedPermutationsHaveSameKeys` | scripts/fetch_as6507_prefixes.py:32 | two sorted arrangements of the same entries have the same key at every position |
| `Sorting.SortIgnoresInputOrder` | scripts/fetch_as6507_prefixes.py:32 | the key sequence after sorting does not depend on the order the set yields its members |
| `Normalizer.Normalize` | scripts/fetch_as6507_prefixes.py:31-32 | a successful result has a key for every string, keys that never decrease, and no repeated string |
| `Normalizer.NormalizeKeepsExactlyThePrefixes` | scripts/fetch_as6507_prefixes.py:32 | on success, every kept value is a string, and a string is in the output exactly when some record's `prefix` value is that string |
| `Normalizer.NormalizeMalformed` | scripts/fetch_as6507_prefixes.py:31-32 | the result is `Malformed` exactly when the extraction or the comprehension fails |
| `Normalizer.NormalizeBadPrefix` | scripts/fetch_as6507_prefixes.py:23-32 | for a well-shaped document, the result is an error (always `BadPrefix`) exactly when some kept value does not parse; otherwise the whole list is returned |
| `Normalizer.IPv4PrecedesIPv6` | scripts/fetch_as6507_prefixes.py:25-26 | in a normalised list every IPv4 prefix comes before every IPv6 prefix |
| `Normalizer.NormalFormDeterminesKeys` | scripts/fetch_as6507_prefixes.py:32 | any two lists that are keyed, sorted, duplicate-free and have the same members have the same length and the same key at each position |
| `Output.Render` | scripts/fetch_as6507_prefixes.py:38-39 | the text is empty exactly when the list is, and otherwise ends with a newline |
| `Output.RenderRoundTrip` | scripts/fetch_as6507_prefixes.py:38-39 | for newline-free prefixes, splitting the text on `"\n"` gives the list followed by one empty piece, so the lines are exactly the list |
| `Output.RenderNewlineCount` | scripts/fetch_as6507_prefixes.py:38-39 | for newline-free prefixes, the text holds one newline per prefix |
| `Output.BuildMetadata` | scripts/fetch_as6507_prefixes.py:41-48 | the metadata records the fixed source, URL and AS, the given timestamp, the list, and `prefix_count` equal to the list's length |
| `Output.Run` | scripts/fetch_as6507_prefixes.py:31-48 | a run yields artifacts exactly when normalisation succeeds, and fails with the same error otherwise; the metadata lists the normalised prefixes and counts them |
| `Output.RunArtifactsAgree` | scripts/fetch_as6507_prefixes.py:36-47 | when no normalised prefix contains a line break, the lines of the text are the metadata's prefixes, and `prefix_count` equals both the number of lines and the number of newlines |
| `Output.RunSingleLine` | scripts/fetch_as6507_prefixes.py:36-47 | a run that refuses, with `BadPrefix`, a normalised prefix containing a line break: it succeeds exactly when normalisation succeeds with newline-free prefixes, it then gives the same artifacts as the plain run, and its lines and newlines always match `prefix_count` |
| `Scenarios.RepeatedPrefixKeptOnce` | scripts/fetch_as6507_prefixes.py:31-47 | `193.0.0.0/21`, `2001:67c:2e8::/48`, `193.0.0.0/21` normalise to the IPv4 prefix, then the IPv6 prefix, with `prefix_count` 2 |
| `Scenarios.EmptyListRendersEmpty` | scripts/fetch_as6507_prefixes.py:38-47 | an empty `prefixes` list gives an empty text and `prefix_count` 0 |
| `Scenarios.MissingDataIsEmpty` | scripts/fetch_as6507_prefixes.py:31 | a document without `data` gives the same artifacts as an empty prefix list |
| `Scenarios.ZoneIdKept` | scripts/fetch_as6507_prefixes.py:24 | the prefix `fe80::%` newline `/64`, whose zone id is a line break, parses and is kept as one prefix |
| `Scenarios.ZoneIdNewlineSplitsLine` | scripts/fetch_as6507_prefixes.py:36-47 | for that prefix the run counts one prefix, while the text holds the two lines `fe80::%` and `/64` and two newlines |
| `Scenarios.ZoneIdTurnedAway` | scripts/fetch_as6507_prefixes.py:36-47 | the run that refuses line breaks fails on that prefix with `BadPrefix` |
| `Scenarios.UnparsablePrefixAborts` | scripts/fetch_as6507_prefixes.py:24 | one record whose prefix does not parse makes the whole normalisation fail with `BadPrefix` |

## Left out

- The HTTP GET in `http_get_json` (lines 13–21) is not modelled: the User-Agent header, the 30-second timeout, and UTF-8 and JSON decoding. The model starts from the decoded document.
- Directory creation and file writes (lines 34, 37, 49–50) are not modelled. Only the content of the two artifacts is.
- JSON pretty-printing of the metadata (`indent=2`, `ensure_ascii=False`, line 50) is a library serialiser. The model stops at the `Metadata` value.
- The wall-clock timestamp (line 45) is a parameter. The stdout summary (line 52) and the exit status (line 56) are side effects and are left out.
- The textual parsing of dotted-quad and IPv6 text inside `ipaddress.ip_network`, including `::` compression, is a foreign library call. It is the `parse` parameter.
- Normalizer.EntryOf: every `prefix` value that is a number or a boolean is reported as `BadPrefix`. For a negative number, or one of 2^128 or more, this is what the source does: `ip_network` raises ValueError inside `sort_key`. A boolean or an integer from 0 to 2^128 − 1 is different: `ip_network` takes it as an address, so it gets through `sort_key`. The run then fails later, at `c + "\n"` in the text write (TypeError), after part of the file has been written. The partial file is not modelled.
- Normalizer.Dedup: Python's set has no specified iteration order. The model fixes one: the last occurrence of each value, then a stable insertion sort. `NormalFormDeterminesKeys` shows that every order gives the same key sequence. Only the order among different strings with equal keys depends on the choice. Such strings are distinct spellings of one network: host bits (`10.0.0.1/8` and `10.0.0.0/8`), IPv6 zero and case forms (`2001:db8::/32` and `2001:0db8::/32`), zone ids, which the key ignores (`fe80::%a/64` and `fe80::%b/64`), and netmask forms (`10.0.0.0/255.0.0.0` and `10.0.0.0/8`). String hashing is randomised per process, so in the script their relative order can differ between two runs on the same document. The model promises only the key sequence there.
- Json values: JSON numbers are integers only, because floating point is not modelled. Python's cross-type set equality (`1 == True`) is not modelled either. Such values can only lead to an error in both the source and the model.
- Normalizer.Iterate: iterating an object yields its members' keys in document order, repeats included. Python yields each distinct key once. The outcome is the same, because a repeated key either fails both times or is skipped both times.
- Output.RunArtifactsAgree: holds only when no normalised prefix contains a line break. `ipaddress` accepts a line break inside an IPv6 zone id, so the script itself does not guarantee this (see Findings).
- Newline translation of text-mode files on platforms other than POSIX, and the UTF-8 encoding of the artifacts, are not modelled.
- The distinct Python exception classes are folded into two errors. `Malformed` covers AttributeError and TypeError while walking the document. `BadPrefix` covers ValueError from `ip_network`.

## Findings

| source | as written | input that shows it | evidently intended | confidence | as-written member | corrected member |
|---|---|---|---|---|---|---|
| scripts/fetch_as6507_prefixes.py:36-47 | each kept prefix is written as `c + "\n"` and counted once in `prefix_count`, whatever characters it holds | a record `{"prefix": "fe80::%\n/64"}`; `ip_network` accepts the line break as an IPv6 zone id | one CIDR per line (the comment at line 36), so the text has exactly `prefix_count` lines | medium; not executed | `Scenarios.ZoneIdNewlineSplitsLine` (on `Output.Run`) | `Output.RunSingleLine`, with `Output.RunArtifactsAgree` for runs whose prefixes are newline-free |
