/** The decisions of the `add_book` tool (src/bin/add_book.rs): which
    fields an update touches, the title taken from video metadata, the
    content type, the tag list, the first free title, whether the book is
    inserted, updated or skipped, and the text of the UPDATE statement. */
module AddBook {
  import opened Common

  // ---------------------------------------------------------------------
  // Field selection

  /** The fields `--include-fields-on-update` and `--exclude-fields-on-update`
      accept; the argument parser refuses any other name. */
  datatype Field =
    | Title | Slug | Url | Added | Published | LastRead
    | Archived | AudioFile | ContentType | Content | Tags

  /** The name of a field on the command line, which is also its column. */
  function Name(f: Field): string {
    match f
    case Title => "title"
    case Slug => "slug"
    case Url => "url"
    case Added => "added"
    case Published => "published"
    case LastRead => "last_read"
    case Archived => "archived"
    case AudioFile => "audio_file"
    case ContentType => "content_type"
    case Content => "content"
    case Tags => "tags"
  }

  const ALL_FIELDS: seq<Field> := [Title, Slug, Url, Added, Published, LastRead,
                                   Archived, AudioFile, ContentType, Content, Tags]

  datatype FieldLists = FieldLists(includeList: seq<Field>, excludeList: seq<Field>)

  /** `should_update_field`: a non-empty include list names the fields to
      update; otherwise a non-empty exclude list names those to keep. */
  function ShouldUpdateField(field: Field, sel: FieldLists): (r: bool)
    ensures sel.includeList != [] ==> (r <==> field in sel.includeList)
    ensures sel.includeList == [] && sel.excludeList != [] ==> (r <==> field !in sel.excludeList)
    ensures sel.includeList == [] && sel.excludeList == [] ==> r
  {
    if sel.includeList != [] then field in sel.includeList
    else if sel.excludeList != [] then field !in sel.excludeList
    else true
  }

  /** The fields an update of an existing book rewrites. */
  function UpdatedFields(sel: FieldLists): set<Field> {
    set f | f in ALL_FIELDS && ShouldUpdateField(f, sel)
  }

  /** The start-up check that at most one of the two lists is given. */
  function CheckFieldLists(sel: FieldLists): (r: Result<FieldLists>)
    ensures r.Ok? <==> sel.includeList == [] || sel.excludeList == []
    ensures r.Ok? ==> r.value == sel
  {
    if sel.includeList != [] && sel.excludeList != [] then
      Err(AppError("cannot specify both --include-fields-on-update and --exclude-fields-on-update"))
    else Ok(sel)
  }

  /** Including a list of fields selects exactly what excluding all the
      other fields selects, and giving neither list selects every field. */
  lemma IncludeExcludeDual(inc: seq<Field>, exc: seq<Field>)
    requires inc != [] && exc != []
    requires forall f :: f in inc <==> f !in exc
    ensures UpdatedFields(FieldLists(inc, [])) == UpdatedFields(FieldLists([], exc))
    ensures UpdatedFields(FieldLists([], [])) == set f | f in ALL_FIELDS
  {
    var a := UpdatedFields(FieldLists(inc, []));
    var b := UpdatedFields(FieldLists([], exc));
    forall f ensures f in a <==> f in b {
      assert ShouldUpdateField(f, FieldLists(inc, [])) == (f in inc);
      assert ShouldUpdateField(f, FieldLists([], exc)) == (f !in exc);
    }
  }

  // ---------------------------------------------------------------------
  // Video metadata

  datatype VideoMetadata = VideoMetadata(
    channel: Option<string>,
    title: string,
    timestamp: int,
    webpageUrl: string,
    tags: Option<seq<string>>)

  /** `title_from_metadata`: the channel in brackets before the video title. */
  function TitleFromMetadata(md: VideoMetadata): (r: string)
    ensures EndsWith(r, md.title)
  {
    (if md.channel.Some? then "[" + md.channel.value + "]: " else "") + md.title
  }

  /** The index of the first `c` in `s`, or `|s|`. */
  function IndexOf(s: string, c: char): (r: nat)
    ensures r <= |s|
    ensures forall k | 0 <= k < r :: s[k] != c
    ensures r < |s| ==> s[r] == c
  {
    if s == [] || s[0] == c then 0 else 1 + IndexOf(s[1..], c)
  }

  /** Reads a book title back as channel and video title: a leading
      `[channel]: ` is taken as the channel. */
  function ChannelOf(t: string): (Option<string>, string) {
    var i := IndexOf(t, ']');
    if |t| >= 1 && t[0] == '[' && i + 3 <= |t| && t[i + 1..i + 3] == ": " then
      (Some(t[1..i]), t[i + 3..])
    else (None, t)
  }

  /** The title loses nothing: when the channel has no `]` and a title
      without a channel does not itself look prefixed, the channel and the
      video title can be read back from it. */
  lemma TitleRoundTrip(md: VideoMetadata)
    requires md.channel.Some? ==> ']' !in md.channel.value
    requires md.channel.None? ==> ChannelOf(md.title).0.None?
    ensures ChannelOf(TitleFromMetadata(md)) == (md.channel, md.title)
  {
    if md.channel.Some? {
      var c := md.channel.value;
      var t := TitleFromMetadata(md);
      assert t == "[" + c + "]: " + md.title;
      assert t[1..|c| + 1] == c;
      assert t[|c| + 1] == ']';
      assert forall k | 0 <= k < |c| + 1 :: t[k] != ']' by {
        forall k | 0 <= k < |c| + 1 ensures t[k] != ']' {
          if k > 0 { assert t[k] == c[k - 1]; }
        }
      }
      assert IndexOf(t, ']') == |c| + 1;
      assert t[|c| + 2..|c| + 4] == ": ";
      assert t[|c| + 4..] == md.title;
    }
  }

  /** The book title: `--title`, else the title made from the metadata. */
  function ChooseTitle(title: Option<string>, md: Option<VideoMetadata>): (r: Result<string>)
    ensures r.Err? <==> title.None? && md.None?
    ensures title.Some? ==> r == Ok(title.value)
    ensures title.None? && md.Some? ==> r == Ok(TitleFromMetadata(md.value))
  {
    if title.Some? then Ok(title.value)
    else if md.Some? then Ok(TitleFromMetadata(md.value))
    else Err(AppError("either --title or --metadata must be set"))
  }

  // ---------------------------------------------------------------------
  // Content type and tags

  /** `--type`, else a type guessed from the input file's extension. */
  function BookContentType(typ: Option<string>, input: string): (r: string)
    ensures typ.Some? ==> r == typ.value
  {
    if typ.Some? then typ.value
    else if EndsWith(input, ".vtt") then "text/vtt"
    else if EndsWith(input, ".md") then "text/markdown"
    else "text/plain"
  }

  /** Without `--type` each extension decides its own type, in both
      directions: the two suffixes exclude each other, so the order of the
      tests does not matter. */
  lemma ContentTypeSpec(input: string)
    ensures BookContentType(None, input) == "text/vtt" <==> EndsWith(input, ".vtt")
    ensures BookContentType(None, input) == "text/markdown" <==> EndsWith(input, ".md")
    ensures BookContentType(None, input) == "text/plain" <==>
              !EndsWith(input, ".vtt") && !EndsWith(input, ".md")
  {
    if EndsWith(input, ".vtt") {
      assert input[|input| - 1] == 't';
    }
    if EndsWith(input, ".md") {
      assert input[|input| - 1] == 'd';
    }
    assert "text/vtt" != "text/markdown" by { assert "text/vtt"[5] != "text/markdown"[5]; }
    assert "text/vtt" != "text/plain" by { assert "text/vtt"[5] != "text/plain"[5]; }
    assert "text/markdown" != "text/plain" by { assert "text/markdown"[5] != "text/plain"[5]; }
  }

  function MetadataTags(md: Option<VideoMetadata>): seq<string> {
    if md.Some? && md.value.tags.Some? then md.value.tags.value else []
  }

  /** The book's tags: the `--tags` list, then every metadata tag it does
      not already hold. */
  method MergeTags(cliTags: seq<string>, md: Option<VideoMetadata>) returns (tags: seq<string>)
    ensures tags == AppendAbsent(cliTags, MetadataTags(md))
    ensures cliTags <= tags
    ensures forall t :: t in tags <==> t in cliTags || t in MetadataTags(md)
    ensures forall k | |cliTags| <= k < |tags| :: tags[k] !in cliTags
    ensures NoDup(cliTags) ==> NoDup(tags)
  {
    tags := PushAbsent(cliTags, MetadataTags(md));
    AppendAbsentSpec(cliTags, MetadataTags(md));
  }

  // ---------------------------------------------------------------------
  // Duplicate titles

  /** The n-th title tried: the title itself, then `title [2]`, `title [3]`, … */
  function Candidate(base: string, n: nat): string {
    if n <= 1 then base else base + " [" + NatToString(n) + "]"
  }

  lemma CandidateInjective(base: string, n: nat, m: nat)
    requires 1 <= n && 1 <= m && Candidate(base, n) == Candidate(base, m)
    ensures n == m
  {
    var c := Candidate(base, n);
    if n >= 2 && m >= 2 {
      assert c[|base| + 2..|c| - 1] == NatToString(n);
      assert Candidate(base, m)[|base| + 2..|c| - 1] == NatToString(m);
      NatToStringInjective(n, m);
    }
  }

  /** The titles tried before the n-th. */
  function CandidatesBelow(base: string, n: nat): set<string> {
    if n <= 1 then {} else CandidatesBelow(base, n - 1) + {Candidate(base, n - 1)}
  }

  lemma {:induction false} NotBelow(base: string, n: nat, m: nat)
    requires 1 <= n <= m
    ensures Candidate(base, m) !in CandidatesBelow(base, n)
  {
    if n > 1 {
      NotBelow(base, n - 1, m);
      if Candidate(base, m) == Candidate(base, n - 1) {
        CandidateInjective(base, m, n - 1);
      }
    }
  }

  lemma {:induction false} CandidatesBelowSize(base: string, n: nat)
    requires 1 <= n
    ensures |CandidatesBelow(base, n)| == n - 1
  {
    if n > 1 {
      CandidatesBelowSize(base, n - 1);
      NotBelow(base, n - 1, n - 1);
    }
  }

  lemma SubsetSize<T>(a: set<T>, b: set<T>)
    requires a <= b
    ensures |a| <= |b|
    decreases a
  {
    if a != {} {
      var x :| x in a;
      SubsetSize(a - {x}, b - {x});
    }
  }

  /** The `--allow-duplicate-title` loop: `used` holds the titles already in
      the database. The result is the first of `base`, `base [2]`,
      `base [3]`, … that is not used. */
  method DisambiguateTitle(base: string, used: set<string>) returns (title: string)
    ensures title !in used
    ensures exists k: nat :: 1 <= k && title == Candidate(base, k)
              && forall i: nat | 1 <= i < k :: Candidate(base, i) in used
  {
    title := base;
    var suffix: nat := 1;
    CandidatesBelowSize(base, 1);
    while title in used
      invariant 1 <= suffix && title == Candidate(base, suffix)
      invariant CandidatesBelow(base, suffix) <= used
      invariant forall i: nat | 1 <= i < suffix :: Candidate(base, i) in used
      decreases |used| - suffix
    {
      CandidatesBelowSize(base, suffix + 1);
      SubsetSize(CandidatesBelow(base, suffix + 1), used);
      suffix := suffix + 1;
      title := base + " [" + NatToString(suffix) + "]";
    }
  }

  // ---------------------------------------------------------------------
  // Insert, update or skip

  /** The columns of a `book` row that the decision reads. */
  datatype BookRow = BookRow(id: int, title: string, slug: Option<string>, url: Option<string>)

  datatype Action = AlreadyExists | Update(id: int) | Insert

  function RowSlug(row: BookRow): Option<string> { row.slug }

  function RowUrl(row: BookRow): Option<string> { row.url }

  /** The first row whose `column` holds `value`, as `SELECT id FROM book
      WHERE <column> = ?` returns it (for the slug and for the URL). */
  function IdBy(db: seq<BookRow>, column: BookRow -> Option<string>, value: string): (r: Option<int>)
    ensures r.Some? <==> exists k | 0 <= k < |db| :: column(db[k]) == Some(value)
    ensures r.Some? ==> exists k | 0 <= k < |db| :: column(db[k]) == Some(value) && db[k].id == r.value
  {
    if db == [] then None
    else if column(db[0]) == Some(value) then Some(db[0].id)
    else
      var r := IdBy(db[1..], column, value);
      assert forall k | 1 <= k < |db| :: db[1..][k - 1] == db[k];
      r
  }

  /** With `--overwrite` a book with the same slug, or else (with
      `--unique-url`) the same URL, is updated; without it `--unique-url`
      skips a book whose URL is already stored; everything else is inserted. */
  function Plan(overwrite: bool, uniqueUrl: bool, slug: Option<string>, url: Option<string>,
                db: seq<BookRow>): Action
  {
    if overwrite then
      var bySlug := if slug.Some? then IdBy(db, RowSlug, slug.value) else None;
      var existing := if uniqueUrl && bySlug.None? && url.Some? then IdBy(db, RowUrl, url.value) else bySlug;
      if existing.Some? then Update(existing.value) else Insert
    else if uniqueUrl && url.Some? && IdBy(db, RowUrl, url.value).Some? then AlreadyExists
    else Insert
  }

  /** The row `row` has id `id` and shares the slug, or (under `--unique-url`) the URL. */
  predicate Matches(row: BookRow, id: int, uniqueUrl: bool, slug: Option<string>, url: Option<string>) {
    row.id == id && ((slug.Some? && row.slug == slug) || (uniqueUrl && url.Some? && row.url == url))
  }

  /** Only `--overwrite` updates, and only a book matching the slug or the
      URL; a book is skipped exactly when its URL is taken and it may not be
      overwritten; with `--unique-url` no second book with the same URL is
      inserted, and with `--overwrite` no second book with the same slug. */
  lemma PlanSpec(overwrite: bool, uniqueUrl: bool, slug: Option<string>, url: Option<string>,
                 db: seq<BookRow>)
    ensures var r := Plan(overwrite, uniqueUrl, slug, url, db);
      && (r.AlreadyExists? <==>
            !overwrite && uniqueUrl && url.Some?
            && exists k | 0 <= k < |db| :: db[k].url == url)
      && (r.Update? ==>
            overwrite && (exists k | 0 <= k < |db| :: Matches(db[k], r.id, uniqueUrl, slug, url)))
      && (r.Insert? && uniqueUrl && url.Some? ==> forall k | 0 <= k < |db| :: db[k].url != url)
      && (r.Insert? && overwrite && slug.Some? ==> forall k | 0 <= k < |db| :: db[k].slug != slug)
  {
    if slug.Some? {
      var _ := IdBy(db, RowSlug, slug.value);
    }
    if url.Some? {
      var _ := IdBy(db, RowUrl, url.value);
    }
  }

  // ---------------------------------------------------------------------
  // The UPDATE statement

  /** The query under construction; `PushBind` writes SQLite's `?` placeholder. */
  class QueryBuilder {
    var sql: string

    constructor(init: string)
      ensures sql == init
    {
      sql := init;
    }

    method Push(s: string)
      modifies this
      ensures sql == old(sql) + s
    {
      sql := sql + s;
    }

    method PushBind()
      modifies this
      ensures sql == old(sql) + "?"
    {
      sql := sql + "?";
    }
  }

  const UPDATE_HEAD: string := "UPDATE book SET"

  /** The value written for a column: a placeholder, except for `last_read`,
      which keeps the later of the given date and the stored one. */
  function ValueSql(column: Field, lastRead: string): string {
    if column == LastRead then
      "COALESCE(MAX(" + "?" + ", (SELECT last_read FROM book WHERE id = " + "?" + ")), "
      + lastRead + ")"
    else "?"
  }

  /** What `update_field` writes for a selected column before its value. */
  function Target(column: Field): string {
    " " + Name(column) + " = "
  }

  function Assignment(column: Field, lastRead: string): string {
    Target(column) + ValueSql(column, lastRead)
  }

  /** The comma-separated assignments for `columns`. */
  function SetClause(columns: seq<Field>, lastRead: string): (r: string)
    ensures r == [] <==> columns == []
  {
    if columns == [] then []
    else
      var init := columns[..|columns| - 1];
      SetClause(init, lastRead) + (if init == [] then "" else ",")
        + Assignment(columns[|columns| - 1], lastRead)
  }

  function UpdateSql(columns: seq<Field>, lastRead: string): string {
    UPDATE_HEAD + SetClause(columns, lastRead) + " WHERE id = " + "?"
  }

  function Keep(field: Field, sel: FieldLists): seq<Field> {
    if ShouldUpdateField(field, sel) then [field] else []
  }

  /** The columns the UPDATE assigns, in the order the source tests them;
      `last_read` only when a date is given. */
  function UpdatedColumns(sel: FieldLists, hasLastRead: bool): seq<Field> {
    Keep(Title, sel) + Keep(Slug, sel) + Keep(Url, sel) + Keep(Added, sel)
    + Keep(Published, sel) + (if hasLastRead then Keep(LastRead, sel) else [])
    + Keep(Archived, sel) + Keep(AudioFile, sel) + Keep(ContentType, sel)
    + Keep(Content, sel)
  }

  /** Exactly the selected columns other than `tags` are assigned, each once. */
  lemma UpdatedColumnsSpec(sel: FieldLists, hasLastRead: bool)
    ensures forall c :: c in UpdatedColumns(sel, hasLastRead) <==>
              c != Tags && ShouldUpdateField(c, sel) && (c == LastRead ==> hasLastRead)
    ensures NoDup(UpdatedColumns(sel, hasLastRead))
  {
    var cs := UpdatedColumns(sel, hasLastRead);
    forall c ensures c in cs <==> c != Tags && ShouldUpdateField(c, sel) && (c == LastRead ==> hasLastRead) {
      assert c in cs <==> c in Keep(c, sel) && (c == LastRead ==> hasLastRead) && c != Tags by {
        KeepMember(c, sel);
      }
    }
    UpdatedColumnsNoDup(sel, hasLastRead);
  }

  /** Whether the book's tags are written: always for a new book, and for
      an existing one (whose old tags are deleted first) when `tags` is
      selected. */
  function WritesTags(updating: bool, sel: FieldLists): bool {
    !updating || ShouldUpdateField(Tags, sel)
  }

  /** An update writes exactly the selected fields: `tags` through the tag
      table, every other one in the SET list, `last_read` only when a date
      is given. */
  lemma UpdatedFieldsWritten(sel: FieldLists, hasLastRead: bool)
    ensures (set c | c in UpdatedColumns(sel, hasLastRead))
         == UpdatedFields(sel) - {Tags} - (if hasLastRead then {} else {LastRead})
    ensures WritesTags(true, sel) <==> Tags in UpdatedFields(sel)
  {
    UpdatedColumnsSpec(sel, hasLastRead);
    var fields := UpdatedFields(sel);
    forall c: Field ensures c in fields <==> ShouldUpdateField(c, sel) {
      InAllFields(c);
    }
    ColumnSet(UpdatedColumns(sel, hasLastRead), fields, hasLastRead);
    InAllFields(Tags);
  }

  lemma ColumnSet(columns: seq<Field>, fields: set<Field>, hasLastRead: bool)
    requires forall c :: c in columns <==> c in fields && c != Tags && (c == LastRead ==> hasLastRead)
    ensures (set c | c in columns) == fields - {Tags} - (if hasLastRead then {} else {LastRead})
  {
  }

  lemma InAllFields(c: Field)
    ensures c in ALL_FIELDS
  {
    match c
    case Title => case Slug => case Url => case Added => case Published => case LastRead =>
    case Archived => case AudioFile => case ContentType => case Content =>
    case Tags => assert ALL_FIELDS[10] == Tags;
  }

  lemma KeepMember(c: Field, sel: FieldLists)
    ensures forall f :: c in Keep(f, sel) <==> f == c && ShouldUpdateField(c, sel)
  {
  }

  lemma UpdatedColumnsNoDup(sel: FieldLists, hasLastRead: bool)
    ensures NoDup(UpdatedColumns(sel, hasLastRead))
  {
    var a := Keep(Title, sel);
    KeepNoDup(a, Slug, sel);
    a := a + Keep(Slug, sel);
    KeepNoDup(a, Url, sel);
    a := a + Keep(Url, sel);
    KeepNoDup(a, Added, sel);
    a := a + Keep(Added, sel);
    KeepNoDup(a, Published, sel);
    a := a + Keep(Published, sel);
    KeepNoDup(a, LastRead, sel);
    a := a + (if hasLastRead then Keep(LastRead, sel) else []);
    KeepNoDup(a, Archived, sel);
    a := a + Keep(Archived, sel);
    KeepNoDup(a, AudioFile, sel);
    a := a + Keep(AudioFile, sel);
    KeepNoDup(a, ContentType, sel);
    a := a + Keep(ContentType, sel);
    KeepNoDup(a, Content, sel);
    a := a + Keep(Content, sel);
  }

  lemma KeepNoDup(a: seq<Field>, f: Field, sel: FieldLists)
    requires NoDup(a) && f !in a
    ensures NoDup(a + Keep(f, sel)) && NoDup(a + [])
  {
    assert a + [] == a;
  }

  /** `update_field`: when the field is selected, writes a comma after an
      earlier assignment and then ` field = `. */
  method UpdateField(query: QueryBuilder, field: Field, sel: FieldLists) returns (b: bool)
    modifies query
    ensures b == ShouldUpdateField(field, sel)
    ensures !b ==> query.sql == old(query.sql)
    ensures b ==> (query.sql ==
              (if old(query.sql) != UPDATE_HEAD then old(query.sql) + "," else old(query.sql))
              + Target(field))
  {
    if !ShouldUpdateField(field, sel) {
      return false;
    }
    if query.sql != UPDATE_HEAD {
      query.Push(",");
    }
    query.Push(Target(field));
    return true;
  }

  lemma Regroup(h: string, s: string, sep: string, t: string, v: string)
    ensures (h + s + sep) + t + v == h + (s + sep + (t + v))
    ensures h + s == h <==> s == []
  {
    assert |h + s| == |h| + |s|;
  }

  /** Appending a selected column to the assignments written so far. */
  lemma {:induction false} SetClauseStep(done: seq<Field>, field: Field, lastRead: string)
    ensures SetClause(done + [field], lastRead)
              == SetClause(done, lastRead) + (if done != [] then "," else "")
                 + (Target(field) + ValueSql(field, lastRead))
  {
    assert (done + [field])[..|done|] == done;
  }

  /** One `if update_field(…) { query.push_bind(…) }` step for a column
      bound to a single value. */
  method SetColumn(query: QueryBuilder, field: Field, sel: FieldLists, lastRead: string,
                   ghost done: seq<Field>) returns (ghost done': seq<Field>)
    requires field != LastRead
    requires query.sql == UPDATE_HEAD + SetClause(done, lastRead)
    modifies query
    ensures done' == done + Keep(field, sel)
    ensures query.sql == UPDATE_HEAD + SetClause(done', lastRead)
  {
    var sep := if done != [] then "," else "";
    Regroup(UPDATE_HEAD, SetClause(done, lastRead), sep, Target(field), "?");
    SetClauseStep(done, field, lastRead);
    var b := UpdateField(query, field, sel);
    done' := done;
    if b {
      query.PushBind();
      done' := done + [field];
    }
  }

  /** The `title`, `slug`, `url`, `added` and `published` steps. */
  method SetLeadingColumns(query: QueryBuilder, sel: FieldLists, lastRead: string)
    returns (ghost done: seq<Field>)
    requires query.sql == UPDATE_HEAD
    modifies query
    ensures done == Keep(Title, sel) + Keep(Slug, sel) + Keep(Url, sel) + Keep(Added, sel)
                    + Keep(Published, sel)
    ensures query.sql == UPDATE_HEAD + SetClause(done, lastRead)
  {
    assert UPDATE_HEAD + SetClause([], lastRead) == UPDATE_HEAD;
    done := SetColumn(query, Title, sel, lastRead, []);
    assert done == Keep(Title, sel);
    done := SetColumn(query, Slug, sel, lastRead, done);
    done := SetColumn(query, Url, sel, lastRead, done);
    done := SetColumn(query, Added, sel, lastRead, done);
    done := SetColumn(query, Published, sel, lastRead, done);
  }

  /** The `archived`, `audio_file`, `content_type` and `content` steps. */
  method SetTrailingColumns(query: QueryBuilder, sel: FieldLists, lastRead: string,
                            ghost done: seq<Field>) returns (ghost done': seq<Field>)
    requires query.sql == UPDATE_HEAD + SetClause(done, lastRead)
    modifies query
    ensures done' == done + Keep(Archived, sel) + Keep(AudioFile, sel) + Keep(ContentType, sel)
                     + Keep(Content, sel)
    ensures query.sql == UPDATE_HEAD + SetClause(done', lastRead)
  {
    done' := SetColumn(query, Archived, sel, lastRead, done);
    done' := SetColumn(query, AudioFile, sel, lastRead, done');
    done' := SetColumn(query, ContentType, sel, lastRead, done');
    done' := SetColumn(query, Content, sel, lastRead, done');
  }

  /** The UPDATE statement for an existing book, as the source assembles it
      (without the bound values); `lastRead` is the `--last-read` date as
      written. */
  method BuildUpdate(sel: FieldLists, lastRead: Option<string>) returns (query: QueryBuilder)
    ensures query.sql == UpdateSql(UpdatedColumns(sel, lastRead.Some?),
                                   if lastRead.Some? then lastRead.value else "")
  {
    var lr := if lastRead.Some? then lastRead.value else "";
    query := new QueryBuilder(UPDATE_HEAD);
    ghost var done := SetLeadingColumns(query, sel, lr);
    if lastRead.Some? {
      done := SetLastRead(query, sel, lr, done);
    } else {
      assert done == done + [];
    }
    done := SetTrailingColumns(query, sel, lr, done);
    assert done == UpdatedColumns(sel, lastRead.Some?);
    query.Push(" WHERE id = ");
    query.PushBind();
  }

  /** The `last_read` step: the later of the given date and the stored one. */
  method SetLastRead(query: QueryBuilder, sel: FieldLists, lastRead: string,
                     ghost done: seq<Field>) returns (ghost done': seq<Field>)
    requires query.sql == UPDATE_HEAD + SetClause(done, lastRead)
    modifies query
    ensures done' == done + Keep(LastRead, sel)
    ensures query.sql == UPDATE_HEAD + SetClause(done', lastRead)
  {
    var sep := if done != [] then "," else "";
    Regroup(UPDATE_HEAD, SetClause(done, lastRead), sep, Target(LastRead),
            ValueSql(LastRead, lastRead));
    SetClauseStep(done, LastRead, lastRead);
    var b := UpdateField(query, LastRead, sel);
    done' := done;
    if b {
      ghost var before := query.sql;
      query.Push("COALESCE(MAX(");
      query.PushBind();
      query.Push(", (SELECT last_read FROM book WHERE id = ");
      query.PushBind();
      query.Push(")), ");
      query.Push(lastRead);
      query.Push(")");
      PushesRegroup(before, "COALESCE(MAX(", "?", ", (SELECT last_read FROM book WHERE id = ",
                    "?", ")), ", lastRead, ")");
      done' := done + [LastRead];
    }
  }

  lemma PushesRegroup(s: string, a: string, b: string, c: string, d: string, e: string,
                      f: string, g: string)
    ensures s + a + b + c + d + e + f + g == s + (a + b + c + d + e + f + g)
  {
  }

  /** When only `tags` (or only `last_read` without a date) is selected, the
      source still issues an UPDATE, and its SET list is empty. */
  lemma EmptySetClause()
    ensures var sel := FieldLists([Tags], []);
      && ShouldUpdateField(Tags, sel)
      && UpdatedColumns(sel, false) == []
      && UpdateSql(UpdatedColumns(sel, false), "") == "UPDATE book SET WHERE id = ?"
  {
  }

  /** The statement the update evidently intends: none when no column is
      selected, so that a tags-only update rewrites the tags alone. */
  function UpdateStatement(sel: FieldLists, lastRead: Option<string>): Option<string> {
    var columns := UpdatedColumns(sel, lastRead.Some?);
    if columns == [] then None
    else Some(UpdateSql(columns, if lastRead.Some? then lastRead.value else ""))
  }

  lemma PrefixOfAppend(x: string, y: string, n: nat)
    requires n <= |x|
    ensures (x + y)[..n] == x[..n]
  {
  }

  lemma {:induction false} SetClauseStart(columns: seq<Field>, lastRead: string)
    requires columns != []
    ensures var p := Target(columns[0]);
      |p| <= |SetClause(columns, lastRead)| && SetClause(columns, lastRead)[..|p|] == p
  {
    var init := columns[..|columns| - 1];
    var last := columns[|columns| - 1];
    var p := Target(columns[0]);
    if init != [] {
      SetClauseStart(init, lastRead);
      assert init[0] == columns[0];
      var r := SetClause(init, lastRead);
      PrefixOfAppend(r + ",", Assignment(last, lastRead), |p|);
      PrefixOfAppend(r, ",", |p|);
    } else {
      assert SetClause(columns, lastRead) == [] + "" + (p + ValueSql(last, lastRead));
      PrefixOfAppend(p, ValueSql(last, lastRead), |p|);
    }
  }

  /** No statement is issued exactly when no column besides `tags` is selected. */
  lemma UpdateStatementNone(sel: FieldLists, lastRead: Option<string>)
    ensures UpdateStatement(sel, lastRead).None? <==>
              forall c | c != Tags && ShouldUpdateField(c, sel) :: c == LastRead && lastRead.None?
  {
    var columns := UpdatedColumns(sel, lastRead.Some?);
    UpdatedColumnsSpec(sel, lastRead.Some?);
    if columns != [] {
      assert columns[0] in columns;
    }
  }

  lemma HeadPrefix(h: string, t: string, p: string, tail: string)
    requires |p| <= |t| && t[..|p|] == p
    ensures |h + p| <= |h + t + tail| && (h + t + tail)[..|h + p|] == h + p
  {
  }

  /** Every statement issued assigns at least one selected column. */
  lemma UpdateStatementAssigns(sel: FieldLists, lastRead: Option<string>)
    ensures var r := UpdateStatement(sel, lastRead);
      r.Some? ==>
        exists c :: c in UpdatedColumns(sel, lastRead.Some?)
          && |UPDATE_HEAD + Target(c)| <= |r.value|
          && r.value[..|UPDATE_HEAD + Target(c)|] == UPDATE_HEAD + Target(c)
  {
    var columns := UpdatedColumns(sel, lastRead.Some?);
    if columns != [] {
      var lr := if lastRead.Some? then lastRead.value else "";
      SetClauseStart(columns, lr);
      var c := columns[0];
      var t := SetClause(columns, lr);
      HeadPrefix(UPDATE_HEAD, t, Target(c), " WHERE id = " + "?");
      assert UpdateSql(columns, lr) == UPDATE_HEAD + t + (" WHERE id = " + "?");
    }
  }
}
