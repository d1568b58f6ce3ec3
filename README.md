# Pakistan National Assembly memberships: the row transform

The scraper asks a SPARQL endpoint for the current memberships of the
National Assembly of Pakistan. It turns each result row into one flat record
and stores the records in a table that it rebuilds on every run. This project
models the part between the query and the storage: `wikidata_id` and the
block that maps each row to a record (`scraper.rb`). It proves what each
output field holds.

The model is pure, as the Ruby is:

- `wrappers.dfy` (`Wrappers`) has `Option` (a value or Ruby's `nil`) and `Result`.
- `ruby_string.dfy` (`RubyString`) models the Ruby string operations the
  transform uses:
  - `nil.to_s` and `.to_s.empty?`;
  - `split('/')`: `Fields` keeps every field, then `DropTrailing` removes the
    trailing empty ones, as Ruby does;
  - `.last`;
  - the range slice `s[0..9]`;
  - `downcase`, on ASCII letters only;
  - `tr('^a-z', '')`, which deletes everything outside `a`..`z` because the
    replacement is empty.
- `na_pattern.dfy` (`NaPattern`) models `/(NA-[0-9]+)/` as a direct scan. It
  finds the leftmost `NA-` followed by a digit and takes the longest digit run
  from there.
- `scraper.dfy` (`Scraper`) has the input row (`RawRow`), with one optional
  string per lowercased query column, and the stored record (`OutputRecord`).
  It also has `WikidataId`, the per-row `Transform`, the whole-run
  `TransformAll` and worked examples.

The constituency label is indexed without `.to_s` (`scraper.rb:59`), so a row
with no label raises. That aborts the whole `map`, so nothing is stored. The
model returns `Err(MissingConstituencyLabel)` for that row. `TransformAll`
returns the index of the first such row, and no records.

The model follows `scraper.rb` in these cases:

- A row without an `item` URI does not fail. Its `id` is nil.
- `name`, `party`, `party_id`, `term` and `constituency_id` can be nil. For
  example, `constituency_id` is nil when the label has no `NA-` token and the
  constituency URI is absent.
- Of role, constituency, party and term, only `legislative_membership_type`
  falls back to `""`. The model shows that it always equals
  `hasrolelabel.to_s`. Nil dates also become `""`.
- A failing row aborts the whole run. It is not skipped.

## Model

| member | source | states |
|---|---|---|
| `RubyString.ToS` | scraper.rb:54-61 | `nil.to_s` is `""`, and a string's `to_s` is the string itself |
| `RubyString.IsBlank` | scraper.rb:54 | `x.to_s.empty?` holds exactly for nil and for the empty string |
| `RubyString.DropTrailing` | scraper.rb:20 | the result is the longest prefix that does not end with the dropped element; everything after it is that element |
| `RubyString.Fields` | scraper.rb:20 | splitting always gives at least one field (before Ruby drops trailing empty fields) |
| `RubyString.FieldsJoin` | scraper.rb:20 | joining the fields with `/` gives the string back, and no field contains `/` |
| `RubyString.FieldsUnique` | scraper.rb:20 | any list of `/`-free pieces that joins back to the string is exactly the list of fields, so the split is unambiguous |
| `RubyString.LastFieldShape` | scraper.rb:20 | the last field is a `/`-free suffix that starts at the beginning or right after a `/` |
| `RubyString.LastFieldAppend` | scraper.rb:20 | appending `/`-free text extends the last field by that text |
| `RubyString.Split` | scraper.rb:20 | `split('/')` is the longest prefix of the fields that does not end in an empty field; every field after it is empty, and no part holds a `/` (`FieldsJoin` and `FieldsUnique` pin down the fields) |
| `RubyString.LastSegment` | scraper.rb:20 | `split('/').last`, when there is one, is non-empty and holds no `/`; `LastSegmentNone`, `LastSegmentShape` and `LastSegmentOf` characterise it completely |
| `RubyString.LastSegmentStrip` | scraper.rb:20 | trailing slashes never change `split('/').last` |
| `RubyString.LastSegmentTrailingSlashes` | scraper.rb:20 | appending any run of slashes leaves `split('/').last` unchanged |
| `RubyString.LastSegmentNone` | scraper.rb:20 | `split('/').last` is nil if and only if the string is empty or only slashes |
| `RubyString.LastSegmentShape` | scraper.rb:20 | a found last segment is non-empty and `/`-free, starts the string or follows a `/`, and only slashes come after it |
| `RubyString.LastSegmentOf` | scraper.rb:20 | the converse: a non-empty `/`-free piece at the start or after a `/`, followed only by slashes, is what `split('/').last` returns |
| `RubyString.SliceTo` | scraper.rb:55-56 | `s[0..last]` is the prefix of `s` of length min(last + 1, length), so the whole string when it is short and `""` for `""` |
| `RubyString.Downcase` | scraper.rb:61 | the ASCII `downcase`: each ASCII capital becomes its lower-case letter, every other character stays, and the length is kept |
| `RubyString.DowncaseAppend` | scraper.rb:61 | the ASCII `downcase` works character by character: it distributes over concatenation |
| `RubyString.DowncaseNoUpper` | scraper.rb:61 | the ASCII `downcase` leaves a string without ASCII capitals unchanged |
| `RubyString.KeepLower` | scraper.rb:61 | `tr('^a-z', '')` leaves only `a`..`z` and never lengthens the string |
| `RubyString.KeepLowerCounts` | scraper.rb:61 | every `a`..`z` character is kept as many times as it occurs |
| `RubyString.KeepLowerAppend` | scraper.rb:61 | `tr('^a-z', '')` keeps order: it distributes over concatenation |
| `RubyString.KeepLowerAllLower` | scraper.rb:61 | `tr('^a-z', '')` leaves a string of `a`..`z` unchanged |
| `NaPattern.DigitRunEnd` | scraper.rb:59 | the greedy `[0-9]+` ends at the first non-digit or at the end of the string |
| `NaPattern.MatchFrom` | scraper.rb:59 | the first `NA-<digit>` at or after a position, with its maximal digit run; when none is found, there is no `NA-<digit>` from that position on |
| `NaPattern.Match` | scraper.rb:59 | `label[/(NA-[0-9]+)/, 1]` is nil if and only if no `NA-<digit>` occurs; otherwise it is the substring at the leftmost occurrence with the maximal digit run |
| `NaPattern.LeftmostMatchUnique` | scraper.rb:59 | there is only one leftmost maximal match, so the token is determined |
| `NaPattern.MatchShape` | scraper.rb:59 | a found token is `NA-` followed by one or more digits |
| `Scraper.WikidataId` | scraper.rb:19-21 | `wikidata_id` is nil if and only if the URI is nil, empty or only slashes; otherwise it is a non-empty, `/`-free segment |
| `Scraper.WikidataIdShape` | scraper.rb:19-21 | a found id is a piece of the URI that starts the URI or follows a `/`, and the URI ends with it followed only by slashes |
| `Scraper.ConstituencyId` | scraper.rb:59 | `constituency_id` is the label's `NA-<digits>` token when `Match` finds one, and otherwise the id of the constituency URI (the fallback to `wikidata_id(r[:constituency])`) |
| `Scraper.PartySlug` | scraper.rb:61 | the party slug contains only `a`..`z` and is no longer than the short name |
| `Scraper.PartySlugAppend` | scraper.rb:61 | the slug of a concatenation is the concatenation of the slugs |
| `Scraper.PartySlugChar` | scraper.rb:61 | an ASCII letter becomes its lower-case form and every other character disappears (with `PartySlugAppend`, this defines the slug completely) |
| `Scraper.PartySlugIdempotent` | scraper.rb:61 | slugging a slug changes nothing |
| `Scraper.Transform` | scraper.rb:52-63 | a row fails if and only if its constituency label is nil |
| `Scraper.TransformFields` | scraper.rb:53-62 | the value of each field: id from the item URI; name is the scraper name unless blank, else the item label; dates are the at-most-10-character prefixes of the raw values (`""` when nil); the role equals `hasrolelabel.to_s`; constituency is the label; constituency_id is the label's `NA-` token, else the id of the constituency URI; party and party_id come from the short name unless it is blank, else from the party label and URI; term is the term ordinal |
| `Scraper.MapUntilError` | scraper.rb:51 | `map` with a block that may raise: on success, one result per element, in order, each the block's value for that element; otherwise the first element whose block raises, and every element before it succeeded |
| `Scraper.TransformAll` | scraper.rb:51-64 | the run succeeds if and only if every row has a constituency label; then it has one record per row, in order, each the row's transform; otherwise it reports the first failing row, and all rows before it transform |
| `Scraper.ExampleItemId` | scraper.rb:19-21 | `http://www.wikidata.org/entity/Q123` gives `Q123` |
| `Scraper.ExampleDate` | scraper.rb:55 | `1990-01-01T00:00:00Z` is cut to `1990-01-01` |
| `Scraper.ExampleConstituencyToken` | scraper.rb:59 | the label `NA-54 Rawalpindi-III` gives `NA-54` |
| `Scraper.ExampleConstituencyFallback` | scraper.rb:59 | a label with no token falls back to the constituency URI's id `Q123456` |
| `Scraper.ExamplePartySlug` | scraper.rb:61 | `PTI` gives `pti` |
| `Scraper.ExamplePartySlugPunctuation` | scraper.rb:61 | `GDA (2)` gives `gda`: the space, digit and parentheses are deleted |
| `Scraper.ExampleRow` | scraper.rb:51-64 | a complete sample row gives exactly the expected record |

## Left out

- The SPARQL request and its error re-wrapping (`scraper.rb:12-17`) are left out. They are network I/O.
- CSV parsing and header conversion (`scraper.rb:14`, `.map(&:to_h)` at `scraper.rb:51`) are left out. Rows are taken as already parsed, keyed by lowercased column names, with nil for missing cells. An empty cell arrives as nil or `""`. Both are handled.
- The query text (`scraper.rb:23-49`) is left out. The remote endpoint evaluates it. Its filters (a future end date, an English short name) are not checked locally and are not assumed.
- Dropping the table and saving the records keyed by `id` (`scraper.rb:66-67`) are left out. These are calls into a storage library. Duplicate ids and table creation are handled inside it and are not modelled.
- `RubyString.Downcase`: it changes ASCII capitals only, so the claims of `Downcase`, `DowncaseAppend` and `DowncaseNoUpper` are about this ASCII model. In Ruby, `"É".downcase` changes although it has no ASCII capital, and `"İ".downcase` has two characters.
- `Scraper.PartySlug`: `downcase` is modelled for ASCII letters only. Ruby applies full Unicode case mapping. A few non-ASCII characters map to an `a`..`z` letter that `tr` would keep: the Kelvin sign becomes `k`, and the dotted capital I becomes `i` plus a combining dot. The model deletes them instead.
- Only the one regular expression, `/(NA-[0-9]+)/`, is modelled, as a direct scan. General regular expressions are not.
