/** The class-level queries of `Spree::BlogEntry` over the blog entry
    table. The table is a sequence of rows already in the default order
    (`published_at DESC`); every scope is an order-preserving filter or a
    prefix of one, and `years` maps and de-duplicates. */
module BlogScopes {
  import opened RubyCore
  import opened Calendar
  import opened Sequences
  import opened BlogEntries

  /** `x` may precede `y` under `order("published_at DESC")`. Where rows
      without a publication time go is up to the database, so they may
      stand anywhere. Rows published at the same time may stand in either
      order; of two rows published at different times, exactly one may
      come first. */
  predicate NewerFirst(x: Entry, y: Entry): (b: bool)
    ensures x.publishedAt == y.publishedAt ==> b
    ensures x.publishedAt.Some? && y.publishedAt.Some? && !b ==>
      AtOrBefore(x.publishedAt.value, y.publishedAt.value) && x.publishedAt != y.publishedAt
  {
    if x.publishedAt.None? || y.publishedAt.None? then true
    else
      AtOrBeforeTotalOrder(x.publishedAt.value, y.publishedAt.value, x.publishedAt.value);
      AtOrBefore(y.publishedAt.value, x.publishedAt.value)
  }

  /** The table as `default_scope` returns it. A table of at most one row
      is in order, and in an ordered table of published rows the first row
      is the newest. */
  predicate InDefaultOrder(t: seq<Entry>): (b: bool)
    ensures |t| <= 1 ==> b
    ensures b && t != [] && (forall e :: e in t ==> e.publishedAt.Some?) ==>
      forall e :: e in t ==> AtOrBefore(e.publishedAt.value, t[0].publishedAt.value)
  {
    var ordered := Pairwise(t, NewerFirst);
    if ordered && t != [] && (forall e :: e in t ==> e.publishedAt.Some?) then
      assert forall j :: 0 <= j < |t| ==> AtOrBefore(t[j].publishedAt.value, t[0].publishedAt.value) by {
        forall j | 0 <= j < |t| ensures AtOrBefore(t[j].publishedAt.value, t[0].publishedAt.value) {
          if j > 0 {
            assert NewerFirst(t[0], t[j]);
          }
        }
      }
      ordered
    else ordered
  }

  /** Every scope below is a filter, so it keeps the default order. */
  lemma FilterKeepsDefaultOrder(t: seq<Entry>, keep: Entry -> bool)
    requires InDefaultOrder(t)
    ensures InDefaultOrder(Where(t, keep))
  {
    SubseqKeepsPairwise(Where(t, keep), t, NewerFirst);
  }

  predicate IsVisible(e: Entry)
  {
    e.visible
  }

  /** `scope :visible`: the rows with `visible = true`, in table order. */
  function Visible(t: seq<Entry>): (r: seq<Entry>)
    ensures IsSubseq(r, t)
    ensures forall e :: e in r <==> e in t && e.visible
    ensures forall e :: multiset(r)[e] == if e.visible then multiset(t)[e] else 0
  {
    Where(t, IsVisible)
  }

  /** The default of `recent`'s `max`. */
  const DefaultRecentLimit: nat := 5

  /** `scope :recent`: `visible.limit(max)`. */
  function Recent(t: seq<Entry>, max: nat := DefaultRecentLimit): (r: seq<Entry>)
    ensures r <= Visible(t)
    ensures |r| == Min(max, |Visible(t)|)
  {
    var v := Visible(t);
    if max < |v| then v[..max] else v
  }

  /** On a table in default order, no visible entry left out of `recent`
      was published after one it returns. */
  lemma RecentAreNewest(t: seq<Entry>, max: nat)
    requires InDefaultOrder(t)
    ensures forall i, j :: 0 <= i < |Recent(t, max)| <= j < |Visible(t)| ==>
      NewerFirst(Recent(t, max)[i], Visible(t)[j])
  {
    FilterKeepsDefaultOrder(t, IsVisible);
    var r, v := Recent(t, max), Visible(t);
    forall i, j | 0 <= i < |r| <= j < |v| ensures NewerFirst(r[i], v[j]) {
      assert r[i] == v[i];
    }
  }

  /** The filter of `by_author`. */
  function AuthoredBy(author: Option<int>): Entry -> bool
  {
    (e: Entry) => e.authorId == author
  }

  /** `scope :by_author`: `where(:author_id => author)`; a nil author
      selects the rows whose author_id IS NULL. */
  function ByAuthor(t: seq<Entry>, author: Option<int>): (r: seq<Entry>)
    ensures IsSubseq(r, t)
    ensures forall e :: e in r <==> e in t && e.authorId == author
    ensures forall e :: multiset(r)[e] == if e.authorId == author then multiset(t)[e] else 0
  {
    Where(t, AuthoredBy(author))
  }

  /** Chaining `visible` and `by_author` gives the same rows in either order. */
  lemma VisibleByAuthorCommute(t: seq<Entry>, author: Option<int>)
    ensures Visible(ByAuthor(t, author)) == ByAuthor(Visible(t), author)
  {
    WhereCommutes(t, IsVisible, AuthoredBy(author));
  }

  /** The argument of `by_date`: either a Hash with some of the keys
      `:day`, `:month`, `:year` (a key is present exactly when its field is
      Some; the value is the one `to_i` gives), or a point in time with the
      period named by the second argument (nil when omitted). */
  datatype DateQuery =
    | Parts(day: Option<int>, month: Option<int>, year: Option<int>)
    | At(time: Stamp, period: Option<Period>)

  datatype Key = DayKey | MonthKey | YearKey

  /** The position of a key in `[:day, :month, :year]`. */
  function KeyRank(k: Key): nat
  {
    match k
    case DayKey => 0
    case MonthKey => 1
    case YearKey => 2
  }

  /** `[:day, :month, :year].select { |key| date.include?(key) }` */
  function KeysGiven(day: Option<int>, month: Option<int>, year: Option<int>): (keys: seq<Key>)
    ensures forall i, j :: 0 <= i < j < |keys| ==> KeyRank(keys[i]) < KeyRank(keys[j])
    ensures DayKey in keys <==> day.Some?
    ensures MonthKey in keys <==> month.Some?
    ensures YearKey in keys <==> year.Some?
  {
    (if day.Some? then [DayKey] else [])
    + (if month.Some? then [MonthKey] else [])
    + (if year.Some? then [YearKey] else [])
  }

  /** `date[key].to_i`: a present key reads its value; an absent key reads
      nil, and `nil.to_i` is 0. */
  function KeyValue(day: Option<int>, month: Option<int>, year: Option<int>, k: Key): (v: int)
    ensures k == DayKey && day.Some? ==> v == day.value
    ensures k == MonthKey && month.Some? ==> v == month.value
    ensures k == YearKey && year.Some? ==> v == year.value
    ensures (k == DayKey && day.None?) || (k == MonthKey && month.None?) || (k == YearKey && year.None?) ==> v == 0
  {
    var v := match k case DayKey => day case MonthKey => month case YearKey => year;
    if v.Some? then v.value else 0
  }

  /** `keys.map { |key| date[key].to_i }` */
  function ValuesOf(day: Option<int>, month: Option<int>, year: Option<int>, keys: seq<Key>): (vs: seq<int>)
    ensures |vs| == |keys|
    ensures forall i :: 0 <= i < |keys| ==> vs[i] == KeyValue(day, month, year, keys[i])
  {
    seq(|keys|, i requires 0 <= i < |keys| => KeyValue(day, month, year, keys[i]))
  }

  /** `keys.first.to_s` read as a unit name: each key names its own unit. */
  function KeyPeriod(k: Key): (p: Period)
    ensures p == Day <==> k == DayKey
    ensures p == Month <==> k == MonthKey
    ensures p == Year <==> k == YearKey
  {
    match k
    case DayKey => Day
    case MonthKey => Month
    case YearKey => Year
  }

  /** `DateTime.new(*args)` for one to three arguments: year, then month
      and day, each defaulting to 1. */
  function DateTimeNew(args: seq<int>): (r: Option<Date>)
    requires 1 <= |args| <= 3
    ensures r.Some? ==> ValidDate(r.value) && r.value.year == args[0]
    ensures |args| == 1 ==> r == Some(Date(args[0], 1, 1))
    ensures |args| == 2 ==> (r.Some? <==> -12 <= args[1] <= 12 && args[1] != 0)
    ensures |args| == 2 && r.Some? ==> r.value.day == 1
    ensures |args| == 3 ==> r == Civil(args[0], args[1], args[2])
  {
    Civil(args[0], if |args| > 1 then args[1] else 1, if |args| > 2 then args[2] else 1)
  }

  /** A date at midnight with a period, or the ArgumentError of an invalid
      date. */
  function AtMidnight(d: Option<Date>, p: Period): (r: Result<(Stamp, Period)>)
    ensures r.Err? <==> d.None?
    ensures r.Err? ==> r.error == ArgumentError
    ensures r.Ok? ==> r.value == (Stamp(d.value, 0), p)
    ensures r.Ok? && ValidDate(d.value) ==> ValidStamp(r.value.0)
  {
    if d.None? then Err(ArgumentError) else Ok((Stamp(d.value, 0), p))
  }

  /** The anchor time and the period of `by_date`. A Hash
      names the period after its finest key and fills `DateTime.new`'s
      arguments positionally from the present values in year, month, day
      order; with no key at all, or with no period for a point in time,
      `beginning_of_` does not exist and NoMethodError is raised. */
  function Anchor(q: DateQuery): (r: Result<(Stamp, Period)>)
    requires q.At? ==> ValidStamp(q.time)
    ensures r.Ok? ==> ValidStamp(r.value.0)
    ensures q.At? ==> r == if q.period.Some? then Ok((q.time, q.period.value)) else Err(NoMethodError)
    ensures q.Parts? && q.day.None? && q.month.None? && q.year.None? ==> r == Err(NoMethodError)
    ensures q.Parts? && r.Ok? ==> r.value.0.second == 0
    ensures q.Parts? && r.Ok? ==>
      && (r.value.1 == Day <==> q.day.Some?)
      && (r.value.1 == Month <==> q.day.None? && q.month.Some?)
      && (r.value.1 == Year <==> q.day.None? && q.month.None? && q.year.Some?)
  {
    match q
    case At(time, period) =>
      if period.None? then Err(NoMethodError) else Ok((time, period.value))
    case Parts(day, month, year) =>
      var keys := KeysGiven(day, month, year);
      if keys == [] then Err(NoMethodError)
      else
        AtMidnight(DateTimeNew(Reverse(ValuesOf(day, month, year, keys))), KeyPeriod(keys[0]))
  }

  /** The present values of a hash in year, month, day order: the
      arguments `DateTime.new` receives, filling its slots from the left. */
  function PresentYearFirst(day: Option<int>, month: Option<int>, year: Option<int>): (vs: seq<int>)
    ensures |vs| <= 3
    ensures vs == [] <==> day.None? && month.None? && year.None?
  {
    (if year.Some? then [year.value] else [])
    + (if month.Some? then [month.value] else [])
    + (if day.Some? then [day.value] else [])
  }

  /** The finest unit a hash names. */
  function FinestPeriod(day: Option<int>, month: Option<int>): Period
  {
    if day.Some? then Day else if month.Some? then Month else Year
  }

  lemma ValuesOfAppend(day: Option<int>, month: Option<int>, year: Option<int>, a: seq<Key>, b: seq<Key>)
    ensures ValuesOf(day, month, year, a + b) == ValuesOf(day, month, year, a) + ValuesOf(day, month, year, b)
  {
  }

  /** The value list of one optional key. */
  lemma ValuesOfOptional(day: Option<int>, month: Option<int>, year: Option<int>, k: Key, present: bool)
    ensures ValuesOf(day, month, year, if present then [k] else []) ==
      if present then [KeyValue(day, month, year, k)] else []
  {
  }

  /** The arguments `by_date` passes to `DateTime.new` are the present
      values in year, month, day order. */
  lemma HashArguments(day: Option<int>, month: Option<int>, year: Option<int>)
    ensures Reverse(ValuesOf(day, month, year, KeysGiven(day, month, year))) == PresentYearFirst(day, month, year)
  {
    var dk: seq<Key> := if day.Some? then [DayKey] else [];
    var mk: seq<Key> := if month.Some? then [MonthKey] else [];
    var yk: seq<Key> := if year.Some? then [YearKey] else [];
    ValuesOfOptional(day, month, year, DayKey, day.Some?);
    ValuesOfOptional(day, month, year, MonthKey, month.Some?);
    ValuesOfOptional(day, month, year, YearKey, year.Some?);
    var dv, mv, yv := ValuesOf(day, month, year, dk), ValuesOf(day, month, year, mk), ValuesOf(day, month, year, yk);
    ValuesOfAppend(day, month, year, dk + mk, yk);
    ValuesOfAppend(day, month, year, dk, mk);
    ReverseAppend(dv + mv, yv);
    ReverseAppend(dv, mv);
    ReverseShort(dv);
    ReverseShort(mv);
    ReverseShort(yv);
    assert KeysGiven(day, month, year) == dk + mk + yk;
    assert ValuesOf(day, month, year, KeysGiven(day, month, year)) == dv + mv + yv;
    assert Reverse(dv + mv + yv) == yv + mv + dv;
    assert PresentYearFirst(day, month, year) == yv + mv + dv;
  }

  /** For a hash with at least one key, the anchor is `DateTime.new`
      applied to the present values in year, month, day order, and the
      period is the finest key present. */
  lemma AnchorFillsFromTheLeft(day: Option<int>, month: Option<int>, year: Option<int>)
    requires day.Some? || month.Some? || year.Some?
    ensures Anchor(Parts(day, month, year)) ==
      AtMidnight(DateTimeNew(PresentYearFirst(day, month, year)), FinestPeriod(day, month))
  {
    HashArguments(day, month, year);
  }

  /** A hash with a day and a year but no month puts the day into the
      month slot: `by_date(:day => 5, :year => 2020)` anchors on 1 May 2020. */
  lemma DayWithoutMonthFillsMonthSlot(d: int, y: int)
    ensures Anchor(Parts(Some(d), None, Some(y))) == AtMidnight(Civil(y, d, 1), Day)
  {
    AnchorFillsFromTheLeft(Some(d), None, Some(y));
  }

  /** A row whose publication time lies in `[lo, hi]`; a NULL time never
      does. */
  predicate PublishedWithin(e: Entry, lo: Stamp, hi: Stamp)
  {
    e.publishedAt.Some? && Within(e.publishedAt.value, lo, hi)
  }

  /** The filter of `by_date`. */
  function PublishedIn(lo: Stamp, hi: Stamp): Entry -> bool
  {
    (e: Entry) => PublishedWithin(e, lo, hi)
  }

  /** `scope :by_date`: `where(:published_at => beginning..end)` of the
      period around the anchor, or the exception the anchor raised. */
  function ByDate(t: seq<Entry>, q: DateQuery): (r: Result<seq<Entry>>)
    requires q.At? ==> ValidStamp(q.time)
    ensures r.Ok? <==> Anchor(q).Ok?
    ensures r.Err? ==> r.error == Anchor(q).error
    ensures r.Ok? ==>
      var (a, p) := Anchor(q).value;
      && IsSubseq(r.value, t)
      && (forall e :: e in r.value <==> e in t && PublishedWithin(e, Beginning(a, p), End(a, p)))
      && (forall e :: multiset(r.value)[e] ==
            if PublishedWithin(e, Beginning(a, p), End(a, p)) then multiset(t)[e] else 0)
  {
    match Anchor(q)
    case Err(x) => Err(x)
    case Ok((a, p)) => Ok(Where(t, PublishedIn(Beginning(a, p), End(a, p))))
  }

  /** Publication times that are real points in time. */
  predicate StampsValid(t: seq<Entry>)
  {
    forall e :: e in t && e.publishedAt.Some? ==> ValidStamp(e.publishedAt.value)
  }

  /** `by_date` returns exactly the rows published in the calendar day,
      month or year of its anchor. */
  lemma ByDateSelectsCalendarUnit(t: seq<Entry>, q: DateQuery)
    requires q.At? ==> ValidStamp(q.time)
    requires StampsValid(t)
    requires Anchor(q).Ok?
    ensures forall e :: e in ByDate(t, q).value <==>
      e in t && e.publishedAt.Some? && SameUnit(e.publishedAt.value, Anchor(q).value.0, Anchor(q).value.1)
  {
    var (a, p) := Anchor(q).value;
    forall e | e in t && e.publishedAt.Some?
      ensures PublishedWithin(e, Beginning(a, p), End(a, p)) <==> SameUnit(e.publishedAt.value, a, p)
    {
      PeriodBoundsMeanSameUnit(a, e.publishedAt.value, p);
    }
  }

  /** `by_date(:year => y, :month => m)` for a month 1 to 12 returns the rows
      published in that month of that year. */
  lemma ByDateMonthOfYear(t: seq<Entry>, y: int, m: int)
    requires 1 <= m <= 12
    requires StampsValid(t)
    ensures ByDate(t, Parts(None, Some(m), Some(y))).Ok?
    ensures forall e :: e in ByDate(t, Parts(None, Some(m), Some(y))).value <==>
      e in t && e.publishedAt.Some? && e.publishedAt.value.date.year == y && e.publishedAt.value.date.month == m
  {
    AnchorFillsFromTheLeft(None, Some(m), Some(y));
    ByDateSelectsCalendarUnit(t, Parts(None, Some(m), Some(y)));
  }

  /** The publication years of rows that all have a publication time. */
  function PublicationYears(v: seq<Entry>): (ys: seq<int>)
    requires forall e :: e in v ==> e.publishedAt.Some?
    ensures |ys| == |v|
    ensures forall i :: 0 <= i < |v| ==> ys[i] == v[i].publishedAt.value.date.year
  {
    seq(|v|, i requires 0 <= i < |v| => v[i].publishedAt.value.date.year)
  }

  /** The years of `PublicationYears` are those of the rows, and every
      row's year is among them. */
  lemma PublicationYearsMembers(v: seq<Entry>)
    requires forall e :: e in v ==> e.publishedAt.Some?
    ensures forall y :: y in PublicationYears(v) <==> exists e :: e in v && e.publishedAt.value.date.year == y
  {
    var ys := PublicationYears(v);
    forall y | y in ys ensures exists e :: e in v && e.publishedAt.value.date.year == y {
      var i :| 0 <= i < |ys| && ys[i] == y;
      assert v[i] in v;
    }
    forall e | e in v ensures e.publishedAt.value.date.year in ys {
      var i :| 0 <= i < |v| && v[i] == e;
      assert ys[i] == e.publishedAt.value.date.year;
    }
  }

  /** `self.years`: `visible.map { |e| e.published_at.year }.uniq`. A
      visible row without a publication time raises NoMethodError. */
  function Years(t: seq<Entry>): (r: Result<seq<int>>)
    ensures r.Err? <==> exists e :: e in t && e.visible && e.publishedAt.None?
    ensures r.Ok? ==> Distinct(r.value)
    ensures r.Ok? ==> forall y :: y in r.value <==>
      exists e :: e in t && e.visible && e.publishedAt.Some? && e.publishedAt.value.date.year == y
  {
    var v := Visible(t);
    if exists e :: e in v && e.publishedAt.None? then Err(NoMethodError)
    else
      PublicationYearsMembers(v);
      Ok(Uniq(PublicationYears(v)))
  }

  /** On a table in default order the years come out newest first, each
      once: strictly decreasing. */
  lemma YearsDescending(t: seq<Entry>)
    requires InDefaultOrder(t)
    requires Years(t).Ok?
    ensures forall i, j :: 0 <= i < j < |Years(t).value| ==> Years(t).value[i] > Years(t).value[j]
  {
    var v := Visible(t);
    FilterKeepsDefaultOrder(t, IsVisible);
    var s := PublicationYears(v);
    var ys := Years(t).value;
    assert ys == Uniq(s);
    forall i, j | 0 <= i < j < |ys| ensures ys[i] > ys[j] {
      var a, b := FirstIndex(s, ys[i]), FirstIndex(s, ys[j]);
      assert a < b;
      assert NewerFirst(v[a], v[b]);
      assert s[a] == v[a].publishedAt.value.date.year && s[b] == v[b].publishedAt.value.date.year;
      assert ys[i] != ys[j];
    }
  }
}
