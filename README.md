# ubuntu-ami in Dafny

`ubuntu-ami` looks up the most recent Ubuntu machine image (AMI) for a region
and an optional release name, release number, instance type and architecture.
It downloads Canonical's image locator table and repairs a trailing comma near
the end of the body. It decodes the table's rows into entries and keeps the
entries that meet every criterion. It sorts them by their date string, takes
the last one, and extracts the image identifier from the entry's
`<a href="...">ami-...</a>` markup.

The model follows `get_latest` and `parse_ami` stage by stage:

| module | stage | form |
|---|---|---|
| `TailPatch` | comma repair over the last 10 characters | method `PatchTail` with a loop, proved against the function `PatchedTail` |
| `Catalog` | row → `Entry` by position; the five `.filter` closures | functions and lemmas |
| `Filtering` | `Iterator::filter` as `Keep`, with fusion, append and completeness lemmas | functions and lemmas |
| `LexOrder` | the ordering of Rust `String` (lexicographic, a prefix sorts first) | predicate plus total-order lemmas |
| `Select` | stable `sort_by_key` on the date, then `pop` | in-place insertion sort on an `array`, proved against `StableSortByDate` |
| `AmiTag` | `parse_ami`: first `>`, last `<`, slice between | functions and lemmas |
| `Lookup` | the whole `get_latest` pipeline | method `GetLatest`, proved against the function `LatestAmi` |

Panics in the source become preconditions, collected in `Lookup.NoPanic`:
- `len - 10` on a body shorter than 10 characters;
- `fs[0]`..`fs[7]` on a row shorter than eight strings;
- the slice `a_tag[start + 1..end]` when the first `>` comes after the last `<`.

The typed errors the source returns become `Lookup.Error`: `InvalidJson`,
`NotFound` ("Could not find ami for criteria") and `BadAmiTag` ("Failure
parsing ami").

At these edges the model follows the code as written:
- A body that is too short panics; no error value is returned. A body of exactly 10 characters is accepted and patched whole.
- A row with more than eight strings is accepted, and the extra strings are ignored (`Catalog.ToEntryIgnoresExtra`). A shorter row panics.
- A tag whose first `>` is directly followed by its last `<` yields the empty identifier as a success (`AmiTag.AdjacentDelimitersEmpty`). A first `>` after the last `<` panics (`AmiTag.ReversedDelimitersPanic`).

## Model

| member | source | states |
|---|---|---|
| TailPatch.Replace | src/lib.rs:52 | same length; each position becomes `to` where the input held `from`, and is unchanged otherwise |
| TailPatch.PatchedTail | src/lib.rs:48-52 | for a body of at least 10 characters: same length, everything before the last 10 unchanged, and in the last 10 each `','` becomes `' '` while other characters stay |
| TailPatch.PatchTail | src/lib.rs:49-52 | splitting at `len - 10` and extending the first part character by character with the repaired tail builds exactly `PatchedTail(r)` |
| TailPatch.NoCommaInWindow | src/lib.rs:48-52 | after the patch the last 10 characters hold no comma |
| TailPatch.PatchIdempotent | src/lib.rs:48-52 | patching an already patched body changes nothing |
| TailPatch.PatchWithoutComma | src/lib.rs:48-52 | a body with no comma among its last 10 characters is returned unchanged |
| Catalog.EntryRow | src/lib.rs:26-36 | an entry has one row of exactly eight strings |
| Catalog.ToEntry | src/lib.rs:74-83 | a row of at least eight strings becomes the entry whose fields, in declaration order, are `fs[0]`..`fs[7]` |
| Catalog.ToEntryOfEntryRow | src/lib.rs:74-83 | mapping an entry's row back gives the same entry |
| Catalog.ToEntryIgnoresExtra | src/lib.rs:74-83 | strings beyond the eighth do not affect the entry |
| Catalog.ToEntries | src/lib.rs:63-84 | one entry per row, in row order, each built from its row's first eight strings |
| Catalog.RowsWellFormed | src/lib.rs:74-83 | every row has at least eight strings, the condition under which indexing `fs[0]`..`fs[7]` does not panic; `ToEntry` and `ToEntries` require it |
| Catalog.FilterChain | src/lib.rs:85-114 | the five `.filter` calls in source order (region, release name, release number, instance type, architecture); no more entries than the input, each an input entry meeting `Matches`; the converse and the order are `FilterChainMembers`, `FilterChainIsMatches` and `FilterChainAppend` |
| Catalog.FilterChainIsMatches | src/lib.rs:85-114 | the five chained filters keep the same entries, in the same order, as one filter on "meets every criterion" |
| Catalog.FilterChainMembers | src/lib.rs:85-113 | an entry survives exactly when it is an input entry with the requested region and, for each criterion that is `Some(x)`, a field equal to `x` |
| Catalog.FilterChainAppend | src/lib.rs:85-114 | filtering distributes over concatenation, so survivors keep their relative order |
| Catalog.FilterChainSingle | src/lib.rs:85-114 | a single entry survives exactly when it matches |
| Catalog.FilterChainRegionOnly | src/lib.rs:85-114 | with all four criteria `None`, the survivors are exactly the entries of the region |
| Filtering.Keep | src/lib.rs:85-114 | `.filter(..).collect()`: no more elements than the input, each an input element satisfying the closure; completeness, fusion and order are the lemmas below |
| Filtering.KeepComplete | src/lib.rs:85-113 | an element satisfying the closure is never dropped |
| Filtering.KeepFuse | src/lib.rs:85-114 | two chained filters equal one filter on the conjunction |
| Filtering.KeepLast | src/lib.rs:115-117 | the last survivor of a filter is an element of the input after which no element satisfies the closure |
| LexOrder.Le | src/lib.rs:115 | the `Ord` of `String` the sort key uses: character by character, a proper prefix first; the lemmas below show it is a total order |
| LexOrder.LeReflexive | src/lib.rs:115 | the date order is reflexive |
| LexOrder.LeTotal | src/lib.rs:115 | any two dates are comparable |
| LexOrder.LeAntisymmetric | src/lib.rs:115 | dates ordered both ways are equal |
| LexOrder.LeTransitive | src/lib.rs:115 | the date order is transitive |
| LexOrder.NotLeIsGreater | src/lib.rs:115 | a date not at most another is strictly greater than it |
| Select.Insert | src/lib.rs:115 | one step of a stable sort: one entry longer; placed after every entry not dated later (`InsertPermutes`, `InsertSorted`, `InsertStable`) |
| Select.StableSortByDate | src/lib.rs:115 | the sequence `sort_by_key` on the date leaves: same length; a permutation, sorted and stable by the lemmas below, and the only such sequence by `StableSortIsUnique` |
| Select.InsertPermutes | src/lib.rs:115 | inserting adds exactly the inserted entry to the multiset |
| Select.InsertSorted | src/lib.rs:115 | inserting into a date-sorted sequence keeps it sorted |
| Select.InsertStable | src/lib.rs:115 | inserting places the new entry after every entry of its date already present |
| Select.StableSortPermutes | src/lib.rs:115 | the sort is a permutation of its input |
| Select.StableSortSorted | src/lib.rs:115 | the sort's output is ordered by date |
| Select.StableSortStable | src/lib.rs:115 | for every date, the entries of that date appear in their input order |
| Select.StableSortIsUnique | src/lib.rs:115 | any date-sorted arrangement that keeps each date's entries in input order equals `StableSortByDate`, so the result does not depend on the sort algorithm |
| Select.InsertAt | src/lib.rs:115 | shifting later-dated entries one place right and dropping the entry into the gap turns the array into `Insert` of the prefix followed by the untouched suffix |
| Select.SortByDate | src/lib.rs:115 | sorting the array in place leaves exactly `StableSortByDate` of its old contents |
| Select.Latest | src/lib.rs:115-117 | the element `pop` returns after the sort: an element of the input; `LatestIsLatest` states which one |
| Select.PopLatest | src/lib.rs:115-118 | copying the entries into an array, sorting it in place and popping gives `None` exactly for no entries, and otherwise `Latest` of them |
| Select.IsLatestUnique | src/lib.rs:115-117 | at most one index has the greatest date and no later index of equal date |
| Select.LatestIsLatest | src/lib.rs:115-117 | the popped entry is an input entry whose date is at least every other date, and the last of its date in filtered order |
| Select.LatestOfTwo | src/lib.rs:115-117 | of two entries with different dates, the later date is chosen in either input order |
| AmiTag.Find | src/lib.rs:128 | `None` exactly when the character is absent; otherwise the index of its first occurrence |
| AmiTag.RFind | src/lib.rs:129 | `None` exactly when the character is absent; otherwise the index of its last occurrence |
| AmiTag.FindAt | src/lib.rs:128 | an occurrence with none before it is what `find` returns |
| AmiTag.RFindAt | src/lib.rs:129 | an occurrence with none after it is what `rfind` returns |
| AmiTag.SliceInBounds | src/lib.rs:128-130 | the slice `a_tag[start + 1..end]` is only taken, and only in bounds, when both delimiters are present and the first `>` comes before the last `<`; `ParseAmi` requires it |
| AmiTag.ParseAmi | src/lib.rs:125-131 | `None` exactly when `>` or `<` is missing; otherwise the text strictly between the first `>` and the last `<` |
| AmiTag.ParseAmiIff | src/lib.rs:125-131 | `Some(id)` exactly when `id` is the text between the first `>` and the last `<` |
| AmiTag.ParseAnchor | src/lib.rs:125-131 | an `<a href="...">id</a>` cell whose link has no `>` yields `id`, whatever `id` holds |
| AmiTag.ParseDocExample | src/lib.rs:126-127 | the example cell in the source's comment yields `ami-085925f297f89fce1` |
| AmiTag.ParseWithoutDelimiters | src/lib.rs:128-129 | markup lacking `>` or lacking `<` yields `None` without panicking, for either early return |
| AmiTag.AdjacentDelimitersEmpty | src/lib.rs:130 | `"><"` yields the empty identifier as a success |
| AmiTag.ReversedDelimitersPanic | src/lib.rs:130 | `"<>"` is outside the slice's bounds, so the source panics |
| Lookup.NoPanic | src/lib.rs:49-130 | the inputs on which `get_latest` does not panic: a body of at least 10 characters, decoded rows of at least eight strings, and a slice in bounds for the chosen entry's tag |
| Lookup.LatestAmi | src/lib.rs:39-123 | what `get_latest` returns, stage by stage; `InvalidJsonIff`, `NotFoundIff`, `BadAmiTagIff` and `OkIff` state each outcome in terms of the input |
| Lookup.GetLatest | src/lib.rs:39-123 | patching, decoding, mapping, filtering, sorting in place and popping return exactly `LatestAmi`: the decode error, not found, the tag failure or the identifier |
| Lookup.InvalidJsonIff | src/lib.rs:54-66 | the decoding error is returned exactly when the patched body does not decode |
| Lookup.NotFoundIff | src/lib.rs:116-118 | "Could not find ami for criteria" is returned exactly when the body decodes and no row's entry meets the query |
| Lookup.OkIff | src/lib.rs:115-122 | `id` is returned exactly when the body decodes and `id` is the tag text of the unique latest candidate (greatest date, last among equal dates) |
| Lookup.BadAmiTagIff | src/lib.rs:120-121 | "Failure parsing ami" is returned exactly when the body decodes and the unique latest candidate's tag lacks `>` or `<` |
| Lookup.OkMatches | src/lib.rs:85-122 | a returned identifier comes from an entry of the table that meets every criterion |
| Lookup.ScenarioCandidates | src/lib.rs:85-114 | two bionic amd64 rows both survive an amd64 query and neither survives any other architecture |
| Lookup.ScenarioLaterDateWins | src/lib.rs:115-122 | of the two rows the later-dated one's identifier, `ami-222`, is returned |
| Lookup.ScenarioNoMatch | src/lib.rs:116-118 | querying the same rows for `arm64` returns not found |

## Left out

- The HTTP fetch (`reqwest::get` of the fixed locator URL, lib.rs:22 and lib.rs:46) and its async await points, which are network I/O. The response body is a parameter of `GetLatest`.
- JSON decoding (`serde_json::from_str`, `as_object`, `values().next().unwrap()`, `as_array`, lib.rs:55-66), a foreign library. It is a parameter `decode: string -> Option<seq<Row>>`, where `None` stands for each of its error returns. The panics inside that boundary are not modelled: an object with no values, a row that is not an array, an element that is not a string.
- UTF-8: `split_at_mut(len - 10)` splits at a byte offset and panics off a character boundary. The model treats text as a sequence of single-unit characters, so the window is 10 characters. For the same reason the string order compares characters; on valid UTF-8 that agrees with Rust's byte order.
- `StdError` boxing and the `anyhow` messages (lib.rs:24, 118, 121) become the three-case `Lookup.Error`.
- Select.SortByDate: Rust's `sort_by_key` runs a merge sort; the model runs an insertion sort. `Select.StableSortIsUnique` shows that every stable sort by date gives the same sequence, so the choice does not affect the result.
- Select.PopLatest: `pop` also removes the entry from the vector. The vector is dropped straight afterwards, so the model only reads the last element.
- Lookup.GetLatest and Lookup.LatestAmi: the source's panics are preconditions (`NoPanic`), not error results.
- The `get.rs` example program, a command-line wrapper that prints the result, is not part of this model.
