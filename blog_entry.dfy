/** One blog entry: its attributes, the presence validations, the two
    `before_save` callbacks (`create_permalink`, `set_published_at`) and the
    derived summary. The slug generator (`String#to_url`) is a parameter
    `toUrl`, the clock (`Time.now`) a parameter `now`. */
module BlogEntries {
  import opened RubyCore
  import opened Calendar

  /** The attributes of one row, as the model sees them. Nullable columns
      are Options; `visible` is the value of `visible?`. */
  datatype Entry = Entry(
    title: Option<string>,
    body: Option<string>,
    summary: Option<string>,
    permalink: Option<string>,
    publishedAt: Option<Stamp>,
    visible: bool,
    authorId: Option<int>)

  /** The attributes that carry a presence validation. */
  datatype Attribute = Title | Body

  /** `validates_presence_of :title` then `validates_presence_of :body`:
      the attributes that are blank, in declaration order. */
  function ValidationErrors(e: Entry): (errs: seq<Attribute>)
    ensures Title in errs <==> Blank(e.title)
    ensures Body in errs <==> Blank(e.body)
    ensures |errs| == 2 ==> errs == [Title, Body]
    ensures |errs| <= 2
  {
    (if Blank(e.title) then [Title] else []) + (if Blank(e.body) then [Body] else [])
  }

  /** The effect of `create_permalink` on an entry value. */
  function WithPermalink(e: Entry, toUrl: string -> string): Entry
    requires e.title.Some?
  {
    if Blank(e.permalink) then e.(permalink := Some(toUrl(e.title.value))) else e
  }

  /** The effect of `set_published_at` on an entry value. */
  function WithPublishedAt(e: Entry, now: Stamp): Entry
  {
    if e.publishedAt.None? && e.visible then e.(publishedAt := Some(now)) else e
  }

  /** What `save` leaves in the entry: None when validation fails (the
      callbacks then do not run), otherwise the entry after both callbacks
      in declaration order. A save is rejected exactly when the title or the
      body is blank, and the callbacks touch nothing but the permalink and
      the publication time. */
  function SaveOutcome(e: Entry, now: Stamp, toUrl: string -> string): (r: Option<Entry>)
    ensures r.None? <==> Blank(e.title) || Blank(e.body)
    ensures r.Some? ==> r.value.(permalink := e.permalink, publishedAt := e.publishedAt) == e
  {
    if ValidationErrors(e) != [] then None
    else Some(WithPublishedAt(WithPermalink(e, toUrl), now))
  }

  /** A saved entry gets `toUrl(title)` as permalink when its permalink was
      blank and keeps it otherwise. */
  lemma SavePermalinkLatch(e: Entry, now: Stamp, toUrl: string -> string)
    requires SaveOutcome(e, now, toUrl).Some?
    ensures !Blank(e.permalink) ==> SaveOutcome(e, now, toUrl).value.permalink == e.permalink
    ensures Blank(e.permalink) ==>
      SaveOutcome(e, now, toUrl).value.permalink == Some(toUrl(e.title.value))
  {
  }

  /** A saved entry gets `now` as publication time exactly when it had none
      and is visible; a publication time once set is never changed, and a
      saved visible entry always has one. */
  lemma SavePublishedAtLatch(e: Entry, now: Stamp, toUrl: string -> string)
    requires SaveOutcome(e, now, toUrl).Some?
    ensures e.publishedAt.Some? ==> SaveOutcome(e, now, toUrl).value.publishedAt == e.publishedAt
    ensures e.publishedAt.None? ==>
      SaveOutcome(e, now, toUrl).value.publishedAt == (if e.visible then Some(now) else None)
    ensures SaveOutcome(e, now, toUrl).value.visible ==> SaveOutcome(e, now, toUrl).value.publishedAt.Some?
  {
  }

  /** A blog entry record held in memory, whose `before_save` callbacks
      assign its fields in place. */
  class BlogEntry {
    var title: Option<string>
    var body: Option<string>
    var summary: Option<string>
    var permalink: Option<string>
    var publishedAt: Option<Stamp>
    var visible: bool
    var authorId: Option<int>

    /** `Spree::BlogEntry.new(attributes)`. */
    constructor (e: Entry)
      ensures Snapshot() == e
    {
      title, body, summary := e.title, e.body, e.summary;
      permalink, publishedAt := e.permalink, e.publishedAt;
      visible, authorId := e.visible, e.authorId;
    }

    /** The record's attributes as a value. */
    function Snapshot(): Entry
      reads this
    {
      Entry(title, body, summary, permalink, publishedAt, visible, authorId)
    }

    /** `create_permalink`: a blank permalink becomes the slug of the title. */
    method CreatePermalink(toUrl: string -> string)
      requires title.Some?
      modifies this`permalink
      ensures Blank(old(permalink)) ==> permalink == Some(toUrl(title.value))
      ensures !Blank(old(permalink)) ==> permalink == old(permalink)
    {
      if Blank(permalink) {
        permalink := Some(toUrl(title.value));
      }
    }

    /** `set_published_at`: a visible entry without a publication time is
        stamped with `now`. */
    method SetPublishedAt(now: Stamp)
      modifies this`publishedAt
      ensures old(publishedAt).None? && visible ==> publishedAt == Some(now)
      ensures !(old(publishedAt).None? && visible) ==> publishedAt == old(publishedAt)
    {
      if publishedAt.None? && visible {
        publishedAt := Some(now);
      }
    }

    /** `save`: run the presence validations; when they pass, run
        `create_permalink` and then `set_published_at`. Returns whether the
        record was saved; a rejected record is left as it was. */
    method Save(now: Stamp, toUrl: string -> string) returns (saved: bool)
      modifies this
      ensures saved <==> !Blank(old(title)) && !Blank(old(body))
      ensures saved ==> Snapshot() == SaveOutcome(old(Snapshot()), now, toUrl).value
      ensures !saved ==> Snapshot() == old(Snapshot())
    {
      var errs := ValidationErrors(Snapshot());
      if errs != [] {
        return false;
      }
      CreatePermalink(toUrl);
      SetPublishedAt(now);
      saved := true;
    }
  }

  /** The attributes an author's form submits: everything but the two fields
      the callbacks own. */
  datatype Edit = Edit(title: Option<string>, body: Option<string>, summary: Option<string>, visible: bool)

  /** One submission: assign the form's attributes, then save at time `now`. */
  datatype Submission = Submission(edit: Edit, now: Stamp)

  function Assign(e: Entry, edit: Edit): Entry
  {
    e.(title := edit.title, body := edit.body, summary := edit.summary, visible := edit.visible)
  }

  /** The record after one submission; a rejected save leaves the assigned
      attributes in memory without running the callbacks. */
  function Submit(e: Entry, sub: Submission, toUrl: string -> string): Entry
  {
    var edited := Assign(e, sub.edit);
    var outcome := SaveOutcome(edited, sub.now, toUrl);
    if outcome.Some? then outcome.value else edited
  }

  /** The record after a series of submissions. */
  function Replay(e: Entry, subs: seq<Submission>, toUrl: string -> string): Entry
    decreases |subs|
  {
    if subs == [] then e else Replay(Submit(e, subs[0], toUrl), subs[1..], toUrl)
  }

  /** The time of the first submission that saves the entry as visible. */
  function FirstVisibleSave(subs: seq<Submission>): Option<Stamp>
    decreases |subs|
  {
    if subs == [] then None
    else
      var edit := subs[0].edit;
      if !Blank(edit.title) && !Blank(edit.body) && edit.visible then Some(subs[0].now)
      else FirstVisibleSave(subs[1..])
  }

  /** Across any series of submissions, however `visible` is toggled, the
      publication time is the one the entry already had, or else the time
      of the first save as visible (none if there was no such save). */
  lemma {:induction false} PublishedAtIsFirstVisibleSave(e: Entry, subs: seq<Submission>, toUrl: string -> string)
    ensures Replay(e, subs, toUrl).publishedAt ==
      if e.publishedAt.Some? then e.publishedAt else FirstVisibleSave(subs)
    decreases |subs|
  {
    if subs != [] {
      var next := Submit(e, subs[0], toUrl);
      PublishedAtIsFirstVisibleSave(next, subs[1..], toUrl);
    }
  }

  /** Across any series of submissions, a non-blank permalink is never
      overwritten, whatever happens to the title. */
  lemma {:induction false} PermalinkKeptOnceSet(e: Entry, subs: seq<Submission>, toUrl: string -> string)
    requires !Blank(e.permalink)
    ensures Replay(e, subs, toUrl).permalink == e.permalink
    decreases |subs|
  {
    if subs != [] {
      var next := Submit(e, subs[0], toUrl);
      PermalinkKeptOnceSet(next, subs[1..], toUrl);
    }
  }

  /** `entry_summary(chars)`: the summary when it is not blank; otherwise
      the first `chars` characters of the body followed by "...". A nil body
      with a blank summary raises NoMethodError. */
  function EntrySummary(e: Entry, chars: int := 200): (r: Result<string>)
    ensures !Blank(e.summary) ==> r == Ok(e.summary.value)
    ensures Blank(e.summary) && e.body.None? ==> r == Err(NoMethodError)
    ensures Blank(e.summary) && e.body.Some? ==>
      && r.Ok?
      && |r.value| >= 3
      && r.value[|r.value| - 3..] == "..."
      && r.value[..|r.value| - 3] <= e.body.value
      && (chars >= 0 ==> |r.value| == Min(chars, |e.body.value|) + 3)
      && (chars < 0 ==> |r.value| == Max(0, |e.body.value| + chars) + 3)
  {
    if !Blank(e.summary) then Ok(e.summary.value)
    else if e.body.None? then Err(NoMethodError)
    else
      var head := SliceTo(e.body.value, chars);
      assert (head + "...")[..|head|] == head;
      Ok(head + "...")
  }

  /** A summary derived from a body of 300 "A"s with the default length is
      200 "A"s and an ellipsis. */
  lemma SummaryOfLongBody(e: Entry)
    requires Blank(e.summary)
    requires e.body == Some(seq(300, _ => 'A'))
    ensures EntrySummary(e) == Ok(seq(200, _ => 'A') + "...")
  {
    var r := EntrySummary(e).value;
    assert |r| == 203;
    assert r[..200] <= e.body.value;
    assert r[..200] == seq(200, _ => 'A');
    assert r == r[..200] + r[200..];
  }
}
