# Pakistan National Assembly (14th) Wikipedia scraper — a Dafny model

The scraper reads the Wikipedia list of members of the 14th National
Assembly of Pakistan. It takes two tables from the page, the member list
and the membership changes. From each table it keeps every row whose third
cell holds a link, and it turns each kept row into a record of named fields:
`id`, `name`, `area`, `area_id`, `region`, `party` and, for member rows
only, `party_id` and `start_date`.

From the member list's own records it builds two lookup tables:
- party name → party identifier;
- constituency name → constituency identifier.

It then concatenates the two record lists, member list first. A fill pass
updates each record in place: wherever `party_id` or `area_id` is `nil`, it
takes the identifier the lookup table has for the record's label. When
debugging is switched on, each record is printed without its empty fields,
with its keys sorted.

This project models that pipeline and proves its properties:
- the row filter and document order;
- the field rules of both row shapes and their failure cases;
- what the lookup tables contain, with last-write-wins for repeated labels;
- that the fill pass never overwrites an identifier and changes nothing else;
- the shape of the combined output;
- what the debug projection keeps and in which order.

The modules follow the program's parts:

- `Wrappers`: `Option` for Ruby's `nil`, `Result` for a run that stops, and hash lookup.
- `Dom`: the parsed page as the scraper sees it. A row is its `th` text (if
  any) and its `td` cells. A cell is its text and its links. A link is its
  text and its `wikidata` attribute.
- `Rows`: the row filter `tr[td[3][a]]`, the `MemberRow` and
  `MembershipChangeRow` field rules, and the `members` field of both table
  classes. `String#tidy` and `Date.parse(...).to_s` are not visible to the
  model. They are parameters, the two fields of `Externals`, and no property
  of them is assumed.
- `Reconcile`: `MemberList#parties` and `MemberList#areas` as the
  `reject`/`map`/`to_h` chain. The `MemberList` class holds these tables
  memoised (`@parties ||=`, `@areas ||=`). `FillIdentifiers` is the in-place
  `data.each` loop with `||=`, over an array of records.
- `Order`: Ruby's symbol order (names compared character by character, a
  proper prefix first) and `sort_by` on hash keys.
- `Output`: the concatenation, the top-level script `Scrape` and the debug
  projection.

## Model

| member | source | states |
|---|---|---|
| `Rows.Qualifies` | scraper.rb:37-38 | the filter `td[3][a]` itself: the third cell exists and holds a link; what it selects is stated by `Rows.Kept` |
| `Rows.Kept` | scraper.rb:36-39 | a row is kept exactly when it is one of the table's rows and its third cell exists and holds a link |
| `Rows.KeptAppend` | scraper.rb:107-110 | the kept rows of `a + b` are the kept rows of `a` followed by those of `b`, so kept rows keep their document order |
| `Rows.SkippedRow` | scraper.rb:38 | a row without a link in its third cell contributes no record and cannot make the scrape fail |
| `Rows.KeptRow` | scraper.rb:19 | a kept row contributes exactly its own record, or its own failure |
| `Rows.FirstWikidata` | scraper.rb:63-65 | `css('a/@wikidata').map(&:text).first` over the party cell's links; its contract is `Rows.FirstWikidataSpec` |
| `Rows.FirstLinkWikidata` | scraper.rb:51-53 | `constituency_link && constituency_link.attr('wikidata')` with `constituency_link` the first link of the first cell (scraper.rb:85-87); its use is stated by `Rows.MemberRowFields` and `Rows.ChangeRowFields` |
| `Rows.FirstWikidataSpec` | scraper.rb:63-65 | `party_id` is `nil` exactly when no link in the party cell has a `wikidata` attribute; otherwise it is the attribute of the first link that has one |
| `Rows.MemberRow` | scraper.rb:42-73 | a member row yields a record exactly when it has a `th`, a fourth cell and a start date that parses; a row without `th` fails with a missing-header error |
| `Rows.MemberRowFields` | scraper.rb:43-91 | `id` and `name` come from the first link of the third cell, `area` and `area_id` from the first cell and its first link, `party` and `party_id` from the second cell, `region` is the untidied `th` text, and `start_date` is the parsed fourth cell |
| `Rows.ChangeRow` | scraper.rb:113-136 | a membership-change row fails exactly when it has no `th`, with a missing-header error for the changes table |
| `Rows.ChangeRowFields` | scraper.rb:113-154 | same cell rules as a member row, but the region is tidied, and a change record has no `party_id` and no `start_date` |
| `Rows.MapRow` | scraper.rb:19 | the row shape a table applies: `MemberRow` for the member list, `MembershipChangeRow` for the changes (scraper.rb:98) |
| `Rows.MapRowHeader` | scraper.rb:59-61 | in both row shapes a row fails with a missing-header error for its own table exactly when it has no `th` (scraper.rb:113-115 for change rows) |
| `Rows.Outcomes` | scraper.rb:19 | one outcome per kept row |
| `Rows.Collect` | scraper.rb:19 | mapping the rows gives one record per row |
| `Rows.CollectSpec` | scraper.rb:19 | the map succeeds exactly when every row maps, keeping the rows' records in order; otherwise it reports the first failing row's failure |
| `Rows.CollectAppend` | scraper.rb:98 | mapping `a + b` succeeds exactly when mapping `a` and `b` both succeed, and then gives their records concatenated |
| `Rows.Records` | scraper.rb:18-20 | a table yields one record per kept row |
| `Rows.RecordsSpec` | scraper.rb:97-99 | a table yields records exactly when every kept row maps, the i-th record being the i-th kept row's; otherwise the failure of the first kept row that fails |
| `Rows.RecordsSucceed` | scraper.rb:19 | mapping the kept rows succeeds exactly when each row maps |
| `Rows.RecordsInOrder` | scraper.rb:19 | a successful mapping holds the i-th kept row's record at position i |
| `Rows.RecordsFirstFailure` | scraper.rb:19 | a failed mapping reports the failure of the first kept row that fails |
| `Rows.RecordsAppend` | scraper.rb:18-20 | the records of the rows `a + b` are those of `a` followed by those of `b`, and that scrape succeeds exactly when both parts do |
| `Reconcile.IdPairs` | scraper.rb:23 | `reject { m[id].nil? }.map { [m[label], m[id]] }`: at most one pair per member |
| `Reconcile.ToH` | scraper.rb:23 | `to_h`: every label among the pairs becomes a key, and there are no more keys than pairs |
| `Reconcile.IdTable` | scraper.rb:22-28 | the whole `reject`/`map`/`to_h` chain for either kind of identifier: at most one entry per member |
| `Reconcile.PartyIds` | scraper.rb:26-28 | the `parties` table: at most one entry per member; its keys and values are stated by `Reconcile.IdTableKeys` and `Reconcile.IdTableLast` |
| `Reconcile.AreaIds` | scraper.rb:22-24 | the `areas` table: at most one entry per member; its keys and values are stated by `Reconcile.IdTableKeys` and `Reconcile.IdTableLast` |
| `Reconcile.IdTableSnoc` | scraper.rb:27 | adding a member with an identifier overwrites its label's entry; adding one with a `nil` identifier changes nothing |
| `Reconcile.IdTableKeys` | scraper.rb:22-28 | `parties` (and `areas`) has a label exactly when some member has that label with a non-nil identifier |
| `Reconcile.IdTableLast` | scraper.rb:22-28 | for a repeated label the table holds the identifier of the last member with that label and a non-nil identifier |
| `Reconcile.Filled` | scraper.rb:165-166 | a non-nil `party_id`/`area_id` is never overwritten; a `nil` one becomes the table's value for the label, or stays `nil` when the label is absent; no other field changes |
| `Reconcile.FillAll` | scraper.rb:164-167 | the fill pass keeps the number and order of the records and fills each one |
| `Reconcile.FillAllIdempotent` | scraper.rb:164-167 | with the tables fixed, running the fill pass twice gives the same records as running it once |
| `Reconcile.FillAllAppend` | scraper.rb:162-167 | filling the concatenation is filling each part and concatenating |
| `Reconcile.MemberList.constructor` | scraper.rb:15-20 | a fresh member list holds its members and has no memoised tables |
| `Reconcile.MemberList.Areas` | scraper.rb:22-24 | returns the area table built from the members and memoises it; the party memo is untouched |
| `Reconcile.MemberList.Parties` | scraper.rb:26-28 | returns the party table built from the members and memoises it; the area memo is untouched |
| `Reconcile.FillIdentifiers` | scraper.rb:164-167 | the in-place loop leaves the array equal to the fill pass applied to its old contents, with the member list's two tables |
| `Output.Combine` | scraper.rb:162 | the output has the member-list records first and then the change records, and its length is the sum of theirs |
| `Output.OutputOrder` | scraper.rb:162-167 | after filling, the output still has one record per scraped record, member list first, each differing from its source record at most in `party_id` and `area_id` |
| `Output.Scrape` | scraper.rb:157-167 | the run fails with the member list's failure, or else with the changes' failure; otherwise it yields the fill pass over the concatenation, with the tables built from the member list |
| `Output.Hash` | scraper.rb:42-73 | the hash `to_h` builds for a record: eight entries with distinct keys |
| `Output.Shown` | scraper.rb:169 | `reject { v.to_s.empty? }`: never more entries than the hash has |
| `Output.ShownSpec` | scraper.rb:169 | `reject { v.to_s.empty? }` keeps exactly the entries whose value is neither `nil` nor `""`, and keys stay distinct |
| `Output.Project` | scraper.rb:169 | `reject` then `sort_by` on keys: never more entries than the hash has; its contents and order are stated by `Output.ProjectSpec` |
| `Output.ProjectSpec` | scraper.rb:169 | the projection of a hash holds exactly its entries whose value prints as something, with keys strictly ascending |
| `Output.ProjectIgnoresOrder` | scraper.rb:169 | two hashes with the same entries, in any insertion order, give the same projection |
| `Output.DebugView` | scraper.rb:169 | the debug line of one record: at most eight fields; which ones and in which order is stated by `Output.DebugViewSpec` |
| `Output.DebugViewSpec` | scraper.rb:169 | a record's debug view keeps exactly its fields that are neither `nil` nor `""`, in ascending key order |
| `Order.Insert` | scraper.rb:169 | inserting an entry adds exactly that entry |
| `Order.SortByKey` | scraper.rb:169 | `sort_by` on keys is a permutation of its input |
| `Order.SortAscending` | scraper.rb:169 | sorting entries with distinct keys gives strictly ascending keys |
| `Order.AscendingUnique` | scraper.rb:169 | two lists with strictly ascending keys and the same entries are equal |
| `Order.LessTotal` | scraper.rb:169 | any two different key names are ordered one way or the other |
| `Order.LessTransitive` | scraper.rb:169 | the key order is transitive |

## Left out

- Fetching the page (`Scraped::Request`, scraper.rb:10-13 and 157-160): network I/O. The rows of the two tables are inputs to `Scrape`.
- Finding each table by its heading anchor (scraper.rb:33, 104): that is the HTML library's XPath engine. Each table is given as its list of rows.
- The XPath filter `td[3][a]` looks at `a` children of the cell; `css('a')` and `at_css('a')` look at all `a` descendants. The `.//tr` path and `css('td')` would also see rows and cells of nested tables. The model gives each row one list of cells and each cell one list of links, so it does not tell these apart.
- `WikidataIdsDecorator::Links` (scraper.rb:16, 95) is a separate library. Each link carries the `wikidata` attribute that library would have added.
- `String#tidy` and `Date.parse` are not part of this model. They are the parameters `Externals.tidy` and `Externals.parseDate`. Which dates parse, and how text is tidied, is left to them.
- `rescue binding.pry` (scraper.rb:44, 72, 127) opens an interactive debugger. A missing fourth cell or an unparseable date is a `Failure` instead. The `rescue` on the member's `wikidata` attribute never fires on a kept row, because the link exists and a missing attribute reads as `nil`.
- `ENV['MORPH_DEBUG']` and `puts` (scraper.rb:169) are I/O. Only the filter-and-sort expression is modelled (`DebugView`).
- `DROP TABLE` and `save_sqlite` with the key `[id, area]` (scraper.rb:171-172) are persistence. The scraper itself enforces no uniqueness.
- Records are values, not Ruby hashes:
  - A key a row shape never sets reads as `nil`; this covers a change row's `party_id` and `start_date`. After the fill pass a change record's hash has a `party_id` key; in the model the field simply holds the filled value.
  - Insertion order of keys is not kept. `ProjectIgnoresOrder` shows the debug view does not depend on it.
  - Aliasing between `data` and `member_list.members` is not modelled. The tables are built from the unfilled member records. Under the fill loop this gives the same tables even if the two lists shared their hashes:
    - a table is first built at the first record whose own identifier of that kind is `nil`;
    - before that point, no record's identifier of that kind has been changed;
    - building one table never reads the other kind's identifiers.
- No property of `name` or `id` beyond where they come from: a kept row's `id` is `nil` when the member link has no `wikidata` attribute, and `name` is whatever `tidy` makes of the link text, which may be empty.
- Both row shapes read the same `td` indices (scraper.rb:77-91, 140-154); the model gives them one set of cell rules.
- Only the debug trace drops fields, and it drops `nil` as well as `""`. The stored records are the filled records, empty fields included.
