/**
 * The `Cackle` object: its configuration, the two tables it reads and writes
 * (comments and the `common` key/value table), and its operations.
 */
module CackleSync {
  import opened Wrappers
  import opened Php
  import opened Status
  import opened Authors
  import opened Jsonp
  import opened Comments
  import opened Cron
  import opened Render

  /** Names of the two rows of the `common` table. */
  const LastComment := "last_comment"
  const LastTime := "last_time"

  /** Query parameters of the comment-list request; a key given as `false` is None. */
  datatype Request = Request(accountApiKey: Option<string>, siteApiKey: Option<string>, id: Option<int>)

  /** One fetch of a `common` row by name. */
  function Lookup(common: map<string, int>, name: string): (r: Option<int>)
    ensures r.Some? <==> name in common
    ensures r.Some? ==> r.value == common[name]
  {
    if name in common then Some(common[name]) else None
  }

  /** `UPDATE common SET value = ? WHERE name = "last_comment"`: the cursor row,
      when it exists, takes the id; no row is created and no other row changes. */
  function SetCursor(common: map<string, int>, id: int): (r: map<string, int>)
    ensures (LastComment in r) == (LastComment in common)
    ensures LastComment in r ==> r[LastComment] == id
    ensures forall k :: k != LastComment ==> Lookup(r, k) == Lookup(common, k)
  {
    if LastComment in common then common[LastComment := id] else common
  }

  /** The `common` table after a batch: an existing cursor holds the id of the
      batch's last comment; no other row changes. */
  function Advance(common: map<string, int>, batch: seq<RawComment>): (r: map<string, int>)
    ensures (LastComment in r) == (LastComment in common)
    ensures batch != [] && LastComment in r ==> r[LastComment] == batch[|batch| - 1].id
    ensures batch == [] ==> r == common
    ensures forall k :: k != LastComment ==> Lookup(r, k) == Lookup(common, k)
  {
    if batch == [] then common else SetCursor(common, batch[|batch| - 1].id)
  }

  /** One more comment moves an existing cursor to its id. */
  lemma AdvanceStep(common: map<string, int>, batch: seq<RawComment>, i: nat)
    requires i < |batch|
    ensures Advance(common, batch[..i + 1]) == SetCursor(Advance(common, batch[..i]), batch[i].id)
  {
    assert batch[..i + 1][i] == batch[i];
  }

  /** The cursor is the last id of the batch, not the largest: ids 5 then 3
      leave it at 3. */
  lemma CursorIsLastNotMax(common: map<string, int>, c5: RawComment, c3: RawComment)
    requires LastComment in common && c5.id == 5 && c3.id == 3
    ensures Advance(common, [c5, c3])[LastComment] == 3
  {
  }

  /** The `common` table after `syncComments` has made sure the cursor row exists. */
  function WithCursor(common: map<string, int>): (r: map<string, int>)
    ensures LastComment in r && r[LastComment] == (if LastComment in common then common[LastComment] else 0)
    ensures forall k :: k != LastComment ==> Lookup(r, k) == Lookup(common, k)
  {
    if LastComment in common then common else common[LastComment := 0]
  }

  /** The comments a fetch yields: none when the transfer failed, when the
      stripped body decodes to an empty value, or when `comments` is empty. */
  function Batch(body: Option<string>, decode: string -> Option<Payload>): seq<RawComment>
  {
    match body
    case None => []
    case Some(text) =>
      match decode(Strip(text))
      case None => []
      case Some(p) => if HasComments(p) then p.comments.value else []
  }

  class Cackle {
    const siteId: int
    /** `$pdo !== false`. */
    const hasDb: bool
    const accountApiKey: Option<string>
    const siteApiKey: Option<string>
    const enc: Encoding

    /** The comments table in storage order. */
    var comments: seq<Row>
    /** The `common` key/value table. */
    var common: map<string, int>

    ghost predicate Valid()
      reads this
    {
      IdsArePositions(comments)
    }

    /**
     * Stores the configuration and, when a positive timer, a connection and
     * both keys are given and the cron gate says a sync is due at `now`,
     * syncs once.
     */
    constructor (siteId: int, hasDb: bool, accountApiKey: Option<string>, siteApiKey: Option<string>,
                 timer: int, enc: Encoding, storedComments: seq<Row>, storedCommon: map<string, int>,
                 now: int, fetch: Request -> Option<string>, decode: string -> Option<Payload>)
      requires IdsArePositions(storedComments)
      ensures Valid()
      ensures this.siteId == siteId && this.hasDb == hasDb && this.enc == enc
      ensures this.accountApiKey == accountApiKey && this.siteApiKey == siteApiKey
      ensures |storedComments| <= |comments| && comments[..|storedComments|] == storedComments
      ensures !(timer > 0 && hasDb && accountApiKey.Some? && siteApiKey.Some?) ==>
        comments == storedComments && common == storedCommon
      ensures timer > 0 && hasDb && accountApiKey.Some? && siteApiKey.Some? ==>
        Lookup(common, LastTime) == Some(CronGate(Lookup(storedCommon, LastTime), timer, now).marker)
    {
      this.siteId := siteId;
      this.hasDb := hasDb;
      this.enc := enc;
      this.accountApiKey := accountApiKey;
      this.siteApiKey := siteApiKey;
      this.comments := storedComments;
      this.common := storedCommon;
      new;
      if timer > 0 && hasDb && accountApiKey.Some? && siteApiKey.Some? {
        var due := IsCron(timer, now);
        if due {
          ghost var before := common;
          var _, request := SyncComments(fetch, decode);
          IngestKeepsRows(storedComments, Batch(fetch(request), decode), enc);
          assert Lookup(common, LastTime) == Lookup(before, LastTime);
        }
      }
    }

    /** `_isCron`: the gate on the `last_time` row at time `now`. */
    method IsCron(cronTime: int, now: int) returns (due: bool)
      requires hasDb
      modifies this`common
      ensures var o := CronGate(Lookup(old(common), LastTime), cronTime, now);
        due == o.due && common == old(common)[LastTime := o.marker]
    {
      var row := Lookup(common, LastTime);
      if row.None? {
        common := common[LastTime := now];
        due := true;
      } else if row.value + cronTime > now {
        due := false;
      } else {
        common := common[LastTime := now];
        due := true;
      }
    }

    /**
     * `pushComments`: without comments, reports false and writes nothing;
     * otherwise appends one row per comment in order, resolving each parent
     * among the rows stored so far, and moves the cursor after every row.
     */
    method PushComments(response: Payload) returns (ok: bool)
      requires Valid()
      requires hasDb || !HasComments(response)
      modifies this`comments, this`common
      ensures Valid()
      ensures ok == HasComments(response)
      ensures var batch := if ok then response.comments.value else [];
        comments == Ingest(old(comments), batch, enc) && common == Advance(old(common), batch)
    {
      if !HasComments(response) {
        return false;
      }
      var batch := response.comments.value;
      for i := 0 to |batch|
        invariant comments == Ingest(old(comments), batch[..i], enc)
        invariant common == Advance(old(common), batch[..i])
      {
        var c := batch[i];
        var status := GetStatus(c.status);
        var author := GetAuthor(AuthorSource(c));
        var parentLocalId := 0;
        if !ParentIdEmpty(c.parentId) {
          var found := FindByCackleId(comments, c.parentId.value);
          if found.Some? {
            parentLocalId := comments[found.value].id;
          }
        }
        var row := Row(
          |comments| + 1, c.id, parentLocalId, enc.Convert(c.channel), c.siteId,
          author.id, enc.ConvertOpt(author.name), enc.ConvertOpt(author.email),
          enc.ConvertOpt(author.www), enc.ConvertOpt(author.avatar), enc.ConvertOpt(author.provider),
          c.rating, c.created, c.ip, enc.Convert(c.message), enc.Convert(c.media), status);
        assert row == NewRow(comments, c, enc);
        IngestStep(old(comments), batch, i, enc);
        AdvanceStep(old(common), batch, i);
        comments := comments + [row];
        common := SetCursor(common, c.id);
      }
      assert batch[..|batch|] == batch;
      IngestKeepsIds(old(comments), batch, enc);
      ok := true;
    }

    /**
     * `syncComments`: makes sure the cursor row exists (creating it with 0,
     * and then sending no `id`), fetches with the stored cursor, strips and
     * decodes the body and pushes what it holds. The created cursor row stays
     * even when nothing arrives.
     */
    method SyncComments(fetch: Request -> Option<string>, decode: string -> Option<Payload>)
      returns (ok: bool, request: Request)
      requires Valid() && hasDb
      modifies this`comments, this`common
      ensures Valid()
      ensures request == Request(accountApiKey, siteApiKey, Lookup(old(common), LastComment))
      ensures var batch := Batch(fetch(request), decode);
        && ok == (batch != [])
        && comments == Ingest(old(comments), batch, enc)
        && common == Advance(WithCursor(old(common)), batch)
    {
      ok := false;
      var row := Lookup(common, LastComment);
      if row.None? {
        common := common[LastComment := 0];
      }
      request := Request(accountApiKey, siteApiKey, row);
      var response := fetch(request);
      if response.Some? {
        var decoded := decode(Strip(response.value));
        if decoded.Some? {
          ok := PushComments(decoded.value);
        }
      }
    }

    /** `_getComments`: the listed rows of `channel` for this site, rendered
        in storage order and wrapped, or nothing. */
    method GetComments(channel: string) returns (out: string)
      ensures out == CommentsSection(hasDb, comments, siteId, channel)
    {
      out := "";
      if hasDb {
        out := RenderRows(Selected(comments, siteId, channel));
        if !EmptyString(out) {
          out := ListOpen + out + ListClose;
        }
      }
    }

    /**
     * `showComments` as written: it passes the site id where `_getComments`
     * expects the channel, so the section lists the rows whose channel is the
     * site id's decimal text, whatever `channel` is.
     */
    method ShowComments(channel: string) returns (html: string)
      ensures html == Page(siteId, channel, CommentsSection(hasDb, comments, siteId, IntText(siteId)))
    {
      var section := GetComments(IntText(siteId));
      html := Page(siteId, channel, section);
    }

    /** `showComments` as intended: the section lists the approved rows of
        this site and `channel`. */
    method ShowCommentsIntended(channel: string) returns (html: string)
      ensures html == Page(siteId, channel, CommentsSection(hasDb, comments, siteId, channel))
    {
      var section := GetComments(channel);
      html := Page(siteId, channel, section);
    }
  }

  /** Comments stored earlier keep their place in the rendered list after a
      sync: the new rows are listed after them. */
  lemma IngestKeepsListing(table: seq<Row>, batch: seq<RawComment>, enc: Encoding, siteId: int, channel: string)
    ensures |Ingest(table, batch, enc)| == |table| + |batch|
    ensures Selected(Ingest(table, batch, enc), siteId, channel) ==
      Selected(table, siteId, channel) + Selected(Ingest(table, batch, enc)[|table|..], siteId, channel)
    ensures RenderList(Selected(Ingest(table, batch, enc), siteId, channel)) ==
      RenderList(Selected(table, siteId, channel)) +
      RenderList(Selected(Ingest(table, batch, enc)[|table|..], siteId, channel))
  {
    var t := Ingest(table, batch, enc);
    IngestKeepsRows(table, batch, enc);
    assert t == table + t[|table|..];
    SelectedAppend(table, t[|table|..], siteId, channel);
    RenderListAppend(Selected(table, siteId, channel), Selected(t[|table|..], siteId, channel));
  }

  /** With strictly increasing remote ids, the cursor a batch leaves is the
      largest id of the batch. */
  lemma CursorIsMaxWhenIncreasing(common: map<string, int>, batch: seq<RawComment>)
    requires LastComment in common && batch != []
    requires forall i, j :: 0 <= i < j < |batch| ==> batch[i].id < batch[j].id
    ensures LastComment in Advance(common, batch)
    ensures forall j :: 0 <= j < |batch| ==> batch[j].id <= Advance(common, batch)[LastComment]
  {
  }

  /** The comments section as written lists only rows whose channel is the
      decimal site id; a row filed under any other channel never shows. */
  lemma AsWrittenIgnoresChannel(rows: seq<Row>, siteId: int, channel: string)
    requires channel != IntText(siteId)
    ensures forall r :: r in Selected(rows, siteId, IntText(siteId)) ==> r.channel != channel
  {
  }

  /** An approved comment on channel "page" of site 7: the page built as
      written shows no comments, the intended one shows it. */
  lemma ShowCommentsChannelBug()
    ensures var row := Row(1, 10, 0, "page", 7, None, Some("Ann"), None, None, None, None,
                           0, 0, "", "hello", "", Approved);
      && CommentsSection(true, [row], 7, IntText(7)) == ""
      && CommentsSection(true, [row], 7, "page") != ""
  {
    var row := Row(1, 10, 0, "page", 7, None, Some("Ann"), None, None, None, None,
                   0, 0, "", "hello", "", Approved);
    assert IntText(7) == "7";
    assert Selected([row], 7, "7") == [];
    assert row in Selected([row], 7, "page");
  }

  /**
   * Two comments in one batch, an approved one and a pending reply to it:
   * the reply is linked to the first comment's local id, and only the first
   * is listed for its channel.
   */
  lemma TwoCommentScenario(enc: Encoding)
    requires enc.IsUtf8()
    ensures var c1 := RawComment(1, 7, "page", None, 0, 0, "", "first", "", "approved", NoAuthor, NoAuthor);
      var c2 := RawComment(2, 7, "page", Some(1), 0, 0, "", "reply", "", "pending", NoAuthor, NoAuthor);
      var t := Ingest([], [c1, c2], enc);
      && |t| == 2
      && t[1].parentId == t[0].id
      && Selected(t, 7, "page") == [t[0]]
  {
    var c1 := RawComment(1, 7, "page", None, 0, 0, "", "first", "", "approved", NoAuthor, NoAuthor);
    var c2 := RawComment(2, 7, "page", Some(1), 0, 0, "", "reply", "", "pending", NoAuthor, NoAuthor);
    var b := [c1, c2];
    var t := Ingest([], b, enc);
    var before := Ingest([], [c1], enc);
    IngestedRow([], [c1], 0, enc);
    assert FindByCackleId(before, 1) == Some(0);
    assert b[..1] == [c1];
    IngestedRow([], b, 0, enc);
    IngestedRow([], b, 1, enc);
    StatusIgnoresCase("approved");
    StatusExamples();
    assert t == [t[0], t[1]];
    assert t[1..] == [t[1]];
  }

  /** The same two comments as they appear on the page: one item, the first. */
  lemma TwoCommentListing(enc: Encoding)
    requires enc.IsUtf8()
    ensures var c1 := RawComment(1, 7, "page", None, 0, 0, "", "first", "", "approved", NoAuthor, NoAuthor);
      var c2 := RawComment(2, 7, "page", Some(1), 0, 0, "", "reply", "", "pending", NoAuthor, NoAuthor);
      var t := Ingest([], [c1, c2], enc);
      |t| == 2 && CommentsSection(true, t, 7, "page") == ListOpen + CommentHtml(t[0]) + ListClose
  {
    TwoCommentScenario(enc);
    var c1 := RawComment(1, 7, "page", None, 0, 0, "", "first", "", "approved", NoAuthor, NoAuthor);
    var c2 := RawComment(2, 7, "page", Some(1), 0, 0, "", "reply", "", "pending", NoAuthor, NoAuthor);
    var t := Ingest([], [c1, c2], enc);
    SectionOfOne(t, 7, "page", t[0]);
  }
}
