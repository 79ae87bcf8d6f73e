# Spree blog entry model in Dafny

This project models `Spree::BlogEntry`, the blog entry record of the
spree-blogging-spree extension, and proves what it promises:

- **Saving one entry.** `title` and `body` must not be blank. If they are
  not, two `before_save` callbacks run in order. `create_permalink` fills a
  blank permalink with the slug of the title. `set_published_at` stamps a
  visible entry that has no publication time with the current time. The
  record is the class `BlogEntries.BlogEntry`. Its `Save` method changes
  the fields in place, and the value function `SaveOutcome` specifies it.
  `Replay` follows a series of form submissions and saves, which lets the
  model state the two latches over a whole history. A submission assigns
  title, body, summary and visibility only; it never assigns `permalink` or
  `published_at`, so only the callbacks change those two fields.
- **Summary.** `entry_summary(chars)` returns the summary when it is not
  blank. Otherwise it returns the first `chars` characters of the body
  followed by `"..."`.
- **Query scopes.** The table is a `seq<Entry>` already in the default
  order, `published_at DESC`. `visible`, `by_author` and `by_date` are
  order-preserving filters. `recent(max)` is a prefix of `visible`. `years`
  is the de-duplicated list of publication years of the visible entries.
- **Period inference in `by_date`.** A hash argument with some of `:day`,
  `:month` and `:year` picks the finest key present as the period. It
  builds the anchor date positionally from the present values in year,
  month, day order.

Ruby's `blank?` is modelled as "nil, or only `[[:space:]]` characters".
`String#[]` with an exclusive range is modelled with its negative-index
rule. `DateTime.new` is modelled with its negative month and day arguments
and its ArgumentError. Raised exceptions are `Err` values of a `Result`.
The slug generator `String#to_url` is a function parameter `toUrl`. The
clock `Time.now` is a parameter `now`. A point in time is a civil date plus
the second of the day, and time-zone conversion is the identity.

Where a reader might expect a pass-through or a set-once field, the code
does otherwise, and the model follows the code:
- `by_author(nil)` selects the entries whose `author_id` is NULL. It is not
  a pass-through.
- `by_date` with an empty hash, or with a time and no period, raises
  NoMethodError. It is not a pass-through.
- A body consisting of `<br>` is not rejected, although the comment at
  app/models/spree/blog_entry.rb:89 says that is what a blank editor field
  holds: the `validate` instance method (lines 88-91) is never registered
  as a validator.
- The permalink stays unchanged only once it is non-blank. A slug that
  comes out blank is computed again at the next save.

Files: `ruby_core.dfy` (Ruby semantics), `calendar.dfy` (dates, periods),
`sequences.dfy` (filter, `uniq`, `reverse`), `blog_entry.dfy` (the record,
saving, summary), `scopes.dfy` (the class-level queries).

## Model

| member | source | states |
|---|---|---|
| `RubyCore.Blank` | app/models/spree/blog_entry.rb:7-8 | `blank?`: nil and the empty string are blank, and a string is present exactly when it holds a character outside `[[:space:]]` (used at lines 7-8, 60, 81 and 85) |
| `RubyCore.SliceTo` | app/models/spree/blog_entry.rb:61 | `s[0...stop]` is a prefix of `s` of length `min(stop, |s|)`; a negative `stop` counts from the end, and an empty slice results when the range ends before the start |
| `Calendar.DaysInMonth` | app/models/spree/blog_entry.rb:43 | month lengths of the Gregorian calendar: 28 exactly for February of a common year, 29 exactly for February of a leap year, 30 exactly for April, June, September and November, 31 for the other months |
| `Calendar.Civil` | app/models/spree/blog_entry.rb:39 | `DateTime.new(y, m, d)` succeeds exactly when the month is in ±1..12 and the day in ±1..(length of that month), and fails (ArgumentError) otherwise, a day past the end of the month included; positive arguments are taken literally, negative months and days count from the end; the result is a valid date in year `y` |
| `Calendar.CivilExamples` | app/models/spree/blog_entry.rb:39 | 29 February exists in 2020 and not in 2021; 31 February raises; month -1 is December; day -1 of February 2021 is the 28th; day -31 of April raises |
| `Calendar.Beginning` | app/models/spree/blog_entry.rb:43 | `beginning_of_<period>` is a valid midnight in the same day/month/year as the time and not after it |
| `Calendar.End` | app/models/spree/blog_entry.rb:43 | `end_of_<period>` is the last second of the same day/month/year and not before the time |
| `Calendar.PeriodBoundsMeanSameUnit` | app/models/spree/blog_entry.rb:43-44 | a valid time lies between the beginning and the end of a period around the anchor if and only if it falls in the anchor's calendar day, month or year |
| `Calendar.AtOrBeforeTotalOrder` | app/models/spree/blog_entry.rb:10 | the order of publication times is reflexive, total, antisymmetric and transitive |
| `Sequences.Where` | app/models/spree/blog_entry.rb:11 | `where` keeps the rows in order (a subsequence), keeps exactly the rows satisfying the condition, and keeps each such row as many times as it occurs |
| `Sequences.WhereCommutes` | app/models/spree/blog_entry.rb:11-12 | two chained `where` filters select the same rows in the same order whichever runs first |
| `Sequences.Uniq` | app/models/spree/blog_entry.rb:70 | `uniq` has no duplicates and holds exactly the input's elements, each in the order of its first appearance |
| `BlogEntries.ValidationErrors` | app/models/spree/blog_entry.rb:7-8 | title has an error if and only if it is blank, body has one if and only if it is blank, reported title first |
| `BlogEntries.SaveOutcome` | app/models/spree/blog_entry.rb:5-8 | the value form of `save`: rejected if and only if the title or the body is blank; a saved entry differs from the input at most in `permalink` and `published_at` |
| `BlogEntries.SavePermalinkLatch` | app/models/spree/blog_entry.rb:80-82 | a successful save keeps a non-blank permalink and replaces a blank one by `toUrl(title)` |
| `BlogEntries.SavePublishedAtLatch` | app/models/spree/blog_entry.rb:84-86 | a successful save keeps an existing publication time; a missing one becomes `now` exactly when the entry is visible; a saved visible entry always has one |
| `BlogEntries.BlogEntry.CreatePermalink` | app/models/spree/blog_entry.rb:80-82 | assigns `toUrl(title)` to a blank permalink, leaves a non-blank one, and modifies no other field |
| `BlogEntries.BlogEntry.SetPublishedAt` | app/models/spree/blog_entry.rb:84-86 | assigns `now` when the publication time is nil and the entry is visible, otherwise leaves it, and modifies no other field |
| `BlogEntries.BlogEntry.Save` | app/models/spree/blog_entry.rb:5-8 | returns true if and only if title and body are not blank; then the record is the entry after `create_permalink` and `set_published_at` in that order; a rejected record is unchanged |
| `BlogEntries.PublishedAtIsFirstVisibleSave` | app/models/spree/blog_entry.rb:84-86 | over any series of submissions, however visibility toggles, the publication time is the one already set, else the time of the first save made while visible, else nil |
| `BlogEntries.PermalinkKeptOnceSet` | app/models/spree/blog_entry.rb:80-82 | over any series of submissions, a non-blank permalink is never overwritten, whatever the title becomes |
| `BlogEntries.EntrySummary` | app/models/spree/blog_entry.rb:59-65 | a non-blank summary is returned unchanged; otherwise the result is a prefix of the body of length `min(chars, |body|)` (for a negative `chars`, `max(0, |body| + chars)`) followed by `"..."` (added even to a short body); a nil body with a blank summary raises |
| `BlogEntries.SummaryOfLongBody` | app/models/spree/blog_entry.rb:59-65 | with the default 200, a blank summary and a body of 300 "A"s give 200 "A"s and `"..."` |
| `BlogScopes.NewerFirst` | app/models/spree/blog_entry.rb:10 | `published_at DESC` between two rows: rows with the same time may stand in either order, and of two rows with different times only the newer may come first |
| `BlogScopes.InDefaultOrder` | app/models/spree/blog_entry.rb:10 | a table of at most one row is in order, and the first row of an ordered table of published rows is the newest |
| `BlogScopes.FilterKeepsDefaultOrder` | app/models/spree/blog_entry.rb:10 | any filter of a table in `published_at DESC` order is still in that order |
| `BlogScopes.Visible` | app/models/spree/blog_entry.rb:11 | `visible` is a subsequence of the table holding exactly the visible entries, each as often as in the table |
| `BlogScopes.Recent` | app/models/spree/blog_entry.rb:12 | `recent(max)` is the prefix of `visible` of length `min(max, |visible|)`, with `max` defaulting to 5 |
| `BlogScopes.RecentAreNewest` | app/models/spree/blog_entry.rb:10-12 | on a table in default order, no visible entry left out of `recent` was published after one it returns |
| `BlogScopes.ByAuthor` | app/models/spree/blog_entry.rb:31-33 | `by_author(a)` is a subsequence of the table holding exactly the entries whose `author_id` equals `a`, nil included, each as often as in the table |
| `BlogScopes.VisibleByAuthorCommute` | app/models/spree/blog_entry.rb:31-33 | `visible.by_author(a)` and `by_author(a).visible` are the same sequence |
| `BlogScopes.KeysGiven` | app/models/spree/blog_entry.rb:37 | the selected keys are the present ones among day, month, year, in that order |
| `BlogScopes.KeyValue` | app/models/spree/blog_entry.rb:39 | `date[key].to_i`: a present key reads its value, an absent one reads 0 (`nil.to_i`) |
| `BlogScopes.ValuesOf` | app/models/spree/blog_entry.rb:39 | `keys.map { date[key].to_i }` has one value per key, each the value of that key |
| `BlogScopes.ValuesOfAppend` | app/models/spree/blog_entry.rb:39 | mapping keys distributes over concatenation of key lists |
| `Sequences.Reverse` | app/models/spree/blog_entry.rb:39 | `Array#reverse` has the same length and takes each element from the mirrored position |
| `Sequences.ReverseAppend` | app/models/spree/blog_entry.rb:39 | reversing a concatenation concatenates the reversed parts in swapped order |
| `BlogScopes.KeyPeriod` | app/models/spree/blog_entry.rb:38 | `keys.first.to_s` names the unit of that key: day, month or year |
| `BlogScopes.DateTimeNew` | app/models/spree/blog_entry.rb:39 | `DateTime.new(*args)` with one to three arguments: a year alone gives 1 January; year and month succeed exactly for a month in ±1..12 and give day 1; three arguments are `Civil`; every result is a valid date in the given year |
| `BlogScopes.AtMidnight` | app/models/spree/blog_entry.rb:39-42 | an invalid date raises ArgumentError; a valid one becomes its midnight, a valid point in time, paired with the period |
| `BlogScopes.Anchor` | app/models/spree/blog_entry.rb:36-40 | for a hash, the period is day if a day is given, else month if a month is given, else year; the anchor is a valid midnight; no key at all, or a time without a period, raises NoMethodError; a time with a period is used as given |
| `BlogScopes.HashArguments` | app/models/spree/blog_entry.rb:37-39 | `keys.reverse.map { to_i }` equals the present values listed in year, month, day order |
| `BlogScopes.AnchorFillsFromTheLeft` | app/models/spree/blog_entry.rb:36-40 | for a hash with at least one key, the anchor is `DateTime.new` of the present values in year, month, day order, filling its slots from the left, and the period is the finest key present |
| `BlogScopes.DayWithoutMonthFillsMonthSlot` | app/models/spree/blog_entry.rb:37-39 | a hash with a day and a year but no month puts the day into the month slot of the anchor date |
| `BlogScopes.ByDate` | app/models/spree/blog_entry.rb:35-45 | fails exactly when the anchor fails; otherwise a subsequence of the table holding exactly the entries whose publication time lies between the beginning and the end of the period, inclusive, each as often as in the table |
| `BlogScopes.ByDateSelectsCalendarUnit` | app/models/spree/blog_entry.rb:42-44 | with valid times, `by_date` selects exactly the entries published in the anchor's calendar day, month or year |
| `BlogScopes.ByDateMonthOfYear` | app/models/spree/blog_entry.rb:35-45 | `by_date(year: y, month: m)` with `m` in 1..12 succeeds and selects exactly the entries published in month `m` of year `y` |
| `BlogScopes.PublicationYears` | app/models/spree/blog_entry.rb:70 | mapping each row to `published_at.year`: one year per row, each the year of that row's publication time |
| `BlogScopes.PublicationYearsMembers` | app/models/spree/blog_entry.rb:70 | a year is in the mapped list if and only if some row was published in it |
| `BlogScopes.Years` | app/models/spree/blog_entry.rb:69-71 | raises if and only if a visible entry has no publication time; otherwise has no duplicates and holds exactly the years of the visible entries |
| `BlogScopes.YearsDescending` | app/models/spree/blog_entry.rb:69-71 | on a table in default order, `years` is strictly decreasing |

## Left out

- `organize_blog_entries` and `months_for`: not modelled. `months_for`
  sends misspelled SQL (`EXTACT`), compares the month with the year, and
  plucks a `:month` column that does not exist. The default block of
  `Hash.new { [] }` never stores its array either. There is no behaviour
  to state.
- The `validate` instance method (the `<br>` body check): not modelled.
  A plain method with that name is not registered as a validator, so it
  never runs on save.
- `by_tag` and `by_category`: not modelled. They delegate to
  acts-as-taggable-on's `tagged_with`, whose tag matching is not part of
  this model.
- ORM wiring is not modelled: the author association, the image
  attachment with its cascade delete, and nested attributes. Persisting
  the row after `save` is not modelled either.
- db/migrate/20181023160630_add_indexes_to_spree_users.rb: schema change
  only; not part of this model.
- `String#to_url`, `Time.now` and `in_time_zone` become a function
  parameter, a time parameter and the identity. `to_time` of a date is its
  midnight. Fractional seconds are not modelled, so `end_of_*` is the last
  whole second.
- `Calendar.Civil`: uses the proleptic Gregorian calendar. It does not
  model Ruby's Julian calendar before 15 October 1582 or the ten days
  missing from that October.
- `BlogScopes.Anchor`: the period argument is one of day, month or year.
  Other units that ActiveSupport knows (hour, week, quarter) are not
  modelled. Hash values are taken after `to_i`; parsing of strings is not
  modelled.
- `BlogScopes.Recent`: `max` is a natural number. A nil or negative limit
  is not modelled.
- Rows have no `id` column, so two rows with equal attributes are equal
  values. The filters state each row's multiplicity, so duplicate rows are
  still kept as often as they occur.
- `BlogScopes.ByDate`: `by_date(nil)` is not modelled; the argument is a
  hash or a point in time. In the source it raises NoMethodError
  (`nil.to_time` at line 42).
- `BlogScopes.ByAuthor`: the author is one id or nil. An array of ids
  (SQL `IN`) is not modelled.
- `BlogScopes.InDefaultOrder`: where NULL publication times go under
  `DESC` depends on the database, so the order says nothing about them.
