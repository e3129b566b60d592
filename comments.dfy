/**
 * The comments table and what `pushComments` writes to it. The table is a
 * sequence in storage (primary key) order; a row's local id is its
 * auto-increment position, starting at 1.
 */
module Comments {
  import opened Wrappers
  import opened Php
  import opened Status
  import opened Authors

  /** One comment of the API's `comments` list, after `json_decode`. */
  datatype RawComment = RawComment(
    id: int,
    siteId: int,
    channel: string,
    parentId: Option<int>,
    rating: int,
    created: int,       // epoch milliseconds
    ip: string,
    message: string,
    media: string,
    status: string,
    author: RawAuthor,  // NoAuthor when the key is missing
    anonym: RawAuthor)

  /** The decoded API response: its `comments` key, when present. */
  datatype Payload = Payload(comments: Option<seq<RawComment>>)

  /** `!empty($response['comments'])`. */
  predicate HasComments(p: Payload)
  {
    p.comments.Some? && p.comments.value != []
  }

  /** A row of the comments table. `created` keeps the API's millisecond value. */
  datatype Row = Row(
    id: int,
    cackleId: int,
    parentId: int,
    channel: string,
    siteId: int,
    authorId: Option<int>,
    authorName: Option<string>,
    authorEmail: Option<string>,
    authorWww: Option<string>,
    authorAvatar: Option<string>,
    authorProvider: Option<string>,
    rating: int,
    created: int,
    ip: string,
    message: string,
    media: string,
    status: int)

  /** Local ids are auto-increment positions. */
  ghost predicate IdsArePositions(table: seq<Row>)
  {
    forall i :: 0 <= i < |table| ==> table[i].id == i + 1
  }

  /**
   * The local code page and the `iconv('utf-8', cp, s)` library call: strings
   * are converted unless the code page lowercases to "utf-8". A null converts
   * as the empty string.
   */
  datatype Encoding = Encoding(cp: string, iconv: (string, string) -> string)
  {
    predicate IsUtf8()
    {
      Lower(cp) == "utf-8"
    }

    function Convert(s: string): (r: string)
      ensures IsUtf8() ==> r == s
    {
      if IsUtf8() then s else iconv(cp, s)
    }

    /** A null value stays null only under utf-8; otherwise it is converted as "". */
    function ConvertOpt(s: Option<string>): (r: Option<string>)
      ensures IsUtf8() ==> r == s
      ensures !IsUtf8() ==> r == Some(Convert(Text(s)))
      ensures r == None ==> IsUtf8() && s == None
    {
      if IsUtf8() then s else Some(iconv(cp, Text(s)))
    }
  }

  /** The author object used for a comment: `author`, or `anonym` when `author` is empty. */
  function AuthorSource(c: RawComment): (a: RawAuthor)
    ensures !c.author.IsEmpty() ==> a == c.author
    ensures c.author.IsEmpty() ==> a == c.anonym
  {
    if c.author.IsEmpty() then c.anonym else c.author
  }

  /** `empty($comment['parentId'])`. */
  predicate ParentIdEmpty(parentId: Option<int>)
  {
    parentId == None || parentId == Some(0)
  }

  /** `SELECT id FROM comments WHERE cackle_id = ?` then one fetch: the first
      row, in storage order, with that remote id. */
  function FindByCackleId(table: seq<Row>, cackleId: int): (r: Option<nat>)
    ensures r.Some? ==> r.value < |table| && table[r.value].cackleId == cackleId
    ensures r.Some? ==> forall j :: 0 <= j < r.value ==> table[j].cackleId != cackleId
    ensures r.None? ==> forall j :: 0 <= j < |table| ==> table[j].cackleId != cackleId
  {
    if table == [] then None
    else if table[0].cackleId == cackleId then Some(0)
    else match FindByCackleId(table[1..], cackleId)
      case None => None
      case Some(k) => Some(k + 1)
  }

  /** The parent's local id: 0 for a top-level comment or an unknown parent. */
  function ParentLocalId(table: seq<Row>, parentId: Option<int>): int
  {
    if ParentIdEmpty(parentId) then 0
    else match FindByCackleId(table, parentId.value)
      case None => 0
      case Some(k) => table[k].id
  }

  /** The row inserted for `c` when the table holds `table`. */
  function NewRow(table: seq<Row>, c: RawComment, enc: Encoding): Row
  {
    var author := GetAuthor(AuthorSource(c));
    Row(
      |table| + 1,
      c.id,
      ParentLocalId(table, c.parentId),
      enc.Convert(c.channel),
      c.siteId,
      author.id,
      enc.ConvertOpt(author.name),
      enc.ConvertOpt(author.email),
      enc.ConvertOpt(author.www),
      enc.ConvertOpt(author.avatar),
      enc.ConvertOpt(author.provider),
      c.rating,
      c.created,
      c.ip,
      enc.Convert(c.message),
      enc.Convert(c.media),
      GetStatus(c.status))
  }

  /** The table after inserting the batch one comment at a time, each parent
      looked up in the table as it stands at that comment. */
  function Ingest(table: seq<Row>, batch: seq<RawComment>, enc: Encoding): seq<Row>
  {
    if batch == [] then table
    else
      var before := Ingest(table, batch[..|batch| - 1], enc);
      before + [NewRow(before, batch[|batch| - 1], enc)]
  }

  /**
   * Ingestion appends exactly one row per comment, in input order, and leaves
   * the earlier rows untouched; the row for `batch[k]` is built against the
   * table holding the original rows and the rows of `batch[..k]`.
   */
  lemma IngestAppends(table: seq<Row>, batch: seq<RawComment>, enc: Encoding)
    ensures |Ingest(table, batch, enc)| == |table| + |batch|
    ensures Ingest(table, batch, enc)[..|table|] == table
    ensures forall k :: 0 <= k < |batch| ==>
      Ingest(table, batch, enc)[|table| + k] == NewRow(Ingest(table, batch[..k], enc), batch[k], enc)
  {
    IngestKeepsRows(table, batch, enc);
    forall k | 0 <= k < |batch|
      ensures Ingest(table, batch, enc)[|table| + k] == NewRow(Ingest(table, batch[..k], enc), batch[k], enc)
    {
      IngestRowAt(table, batch, k, enc);
    }
  }

  /** The last comment of a batch adds one row after those of the others. */
  lemma IngestLastStep(table: seq<Row>, batch: seq<RawComment>, enc: Encoding)
    requires batch != []
    ensures var n := |batch| - 1;
      && |Ingest(table, batch[..n], enc)| == |table| + n
      && |Ingest(table, batch, enc)| == |table| + |batch|
      && Ingest(table, batch, enc)[|table| + n] == NewRow(Ingest(table, batch[..n], enc), batch[n], enc)
      && forall j :: 0 <= j < |table| + n ==> Ingest(table, batch, enc)[j] == Ingest(table, batch[..n], enc)[j]
  {
    IngestKeepsRows(table, batch[..|batch| - 1], enc);
  }

  /** The row stored for `batch[k]` is built against the table left by `batch[..k]`. */
  lemma IngestRowAt(table: seq<Row>, batch: seq<RawComment>, k: nat, enc: Encoding)
    requires k < |batch|
    ensures |Ingest(table, batch, enc)| == |table| + |batch|
    ensures Ingest(table, batch, enc)[|table| + k] == NewRow(Ingest(table, batch[..k], enc), batch[k], enc)
  {
    var p := batch[..k + 1];
    IngestPrefix(table, batch, k + 1, enc);
    IngestLastStep(table, p, enc);
    assert p[..k] == batch[..k] && p[k] == batch[k];
    assert Ingest(table, batch, enc)[|table| + k] == Ingest(table, p, enc)[|table| + k];
  }

  /** One step of ingestion: comment i is appended to the table left by the
      comments before it. */
  lemma IngestStep(table: seq<Row>, batch: seq<RawComment>, i: nat, enc: Encoding)
    requires i < |batch|
    ensures Ingest(table, batch[..i + 1], enc) ==
      Ingest(table, batch[..i], enc) + [NewRow(Ingest(table, batch[..i], enc), batch[i], enc)]
  {
    assert batch[..i + 1][..i] == batch[..i];
  }

  /** Ingestion only appends: one row per comment, earlier rows untouched. */
  lemma {:induction false} IngestKeepsRows(table: seq<Row>, batch: seq<RawComment>, enc: Encoding)
    ensures |Ingest(table, batch, enc)| == |table| + |batch|
    ensures Ingest(table, batch, enc)[..|table|] == table
    decreases |batch|
  {
    if batch != [] {
      var n := |batch| - 1;
      var before := Ingest(table, batch[..n], enc);
      IngestKeepsRows(table, batch[..n], enc);
      assert Ingest(table, batch, enc) == before + [NewRow(before, batch[n], enc)];
      assert (before + [NewRow(before, batch[n], enc)])[..|table|] == before[..|table|];
    }
  }

  /** The parent column of the row stored for `batch[k]` is resolved against
      the table as it stood just before that row. */
  lemma IngestedParent(table: seq<Row>, batch: seq<RawComment>, k: nat, enc: Encoding)
    requires k < |batch|
    ensures |Ingest(table, batch, enc)| == |table| + |batch|
    ensures Ingest(table, batch, enc)[|table| + k].parentId ==
      ParentLocalId(Ingest(table, batch[..k], enc), batch[k].parentId)
  {
    IngestAppends(table, batch, enc);
  }

  /** Ingesting a prefix of the batch gives a prefix of the table. */
  lemma {:induction false} IngestPrefix(table: seq<Row>, batch: seq<RawComment>, k: nat, enc: Encoding)
    requires k <= |batch|
    ensures |Ingest(table, batch, enc)| == |table| + |batch|
    ensures Ingest(table, batch, enc)[..|table| + k] == Ingest(table, batch[..k], enc)
    decreases |batch|
  {
    if k < |batch| {
      var n := |batch| - 1;
      var before := Ingest(table, batch[..n], enc);
      var last := NewRow(before, batch[n], enc);
      assert Ingest(table, batch, enc) == before + [last];
      IngestPrefix(table, batch[..n], k, enc);
      assert batch[..n][..k] == batch[..k];
      assert (before + [last])[..|table| + k] == before[..|table| + k];
    } else {
      IngestKeepsRows(table, batch, enc);
      assert batch[..k] == batch;
    }
  }

  /** The fields of the row stored for `batch[k]`. */
  lemma IngestedRow(table: seq<Row>, batch: seq<RawComment>, k: nat, enc: Encoding)
    requires k < |batch|
    ensures |Ingest(table, batch, enc)| == |table| + |batch|
    ensures var row := Ingest(table, batch, enc)[|table| + k];
      var author := GetAuthor(AuthorSource(batch[k]));
      && row.id == |table| + k + 1
      && row.cackleId == batch[k].id
      && row.siteId == batch[k].siteId
      && row.status == GetStatus(batch[k].status)
      && row.authorId == author.id
      && row.authorName == enc.ConvertOpt(author.name)
      && row.authorEmail == enc.ConvertOpt(author.email)
      && row.authorWww == enc.ConvertOpt(author.www)
      && row.authorAvatar == enc.ConvertOpt(author.avatar)
      && row.authorProvider == enc.ConvertOpt(author.provider)
      && row.channel == enc.Convert(batch[k].channel)
      && row.message == enc.Convert(batch[k].message)
      && row.media == enc.Convert(batch[k].media)
      && row.rating == batch[k].rating && row.created == batch[k].created && row.ip == batch[k].ip
      && row.parentId == ParentLocalId(Ingest(table, batch[..k], enc), batch[k].parentId)
  {
    IngestAppends(table, batch, enc);
    IngestAppends(table, batch[..k], enc);
  }

  /**
   * The author columns of the row stored for `batch[k]` come from `author`,
   * or from `anonym` when `author` is empty; under utf-8 the stored website
   * and avatar are null exactly when the source value is empty, and an empty
   * provider is stored as "cackle".
   */
  lemma IngestedAuthor(table: seq<Row>, batch: seq<RawComment>, k: nat, enc: Encoding)
    requires k < |batch|
    ensures |Ingest(table, batch, enc)| == |table| + |batch|
    ensures var row := Ingest(table, batch, enc)[|table| + k];
      var src := if batch[k].author.IsEmpty() then batch[k].anonym else batch[k].author;
      && row.authorId == src.id
      && row.authorName == enc.ConvertOpt(src.name)
      && row.authorEmail == enc.ConvertOpt(src.email)
      && (enc.IsUtf8() ==>
            && (row.authorWww == None <==> Empty(src.www))
            && (row.authorWww != None ==> row.authorWww == src.www)
            && (row.authorAvatar == None <==> Empty(src.avatar))
            && (row.authorAvatar != None ==> row.authorAvatar == src.avatar)
            && (row.authorProvider == None <==> src.provider == None)
            && (src.provider == Some("") ==> row.authorProvider == Some(NativeProvider)))
  {
    IngestedRow(table, batch, k, enc);
  }

  /** Ingestion keeps local ids equal to auto-increment positions. */
  lemma IngestKeepsIds(table: seq<Row>, batch: seq<RawComment>, enc: Encoding)
    requires IdsArePositions(table)
    ensures IdsArePositions(Ingest(table, batch, enc))
  {
    IngestAppends(table, batch, enc);
    var t := Ingest(table, batch, enc);
    forall i | 0 <= i < |t| ensures t[i].id == i + 1 {
      if i < |table| {
        assert t[i] == t[..|table|][i];
      } else {
        IngestedRow(table, batch, i - |table|, enc);
      }
    }
  }

  /** Position of the first element of `batch` with remote id `cackleId`. */
  function FirstInBatch(batch: seq<RawComment>, cackleId: int): (r: Option<nat>)
    ensures r.Some? ==> r.value < |batch| && batch[r.value].id == cackleId
    ensures r.Some? ==> forall j :: 0 <= j < r.value ==> batch[j].id != cackleId
    ensures r.None? ==> forall j :: 0 <= j < |batch| ==> batch[j].id != cackleId
  {
    if batch == [] then None
    else if batch[0].id == cackleId then Some(0)
    else match FirstInBatch(batch[1..], cackleId)
      case None => None
      case Some(k) => Some(k + 1)
  }

  /** Remote and local ids of the rows a batch appends. */
  lemma BatchIds(table: seq<Row>, batch: seq<RawComment>, enc: Encoding)
    ensures |Ingest(table, batch, enc)| == |table| + |batch|
    ensures forall j :: 0 <= j < |batch| ==>
      Ingest(table, batch, enc)[|table| + j].cackleId == batch[j].id &&
      Ingest(table, batch, enc)[|table| + j].id == |table| + j + 1
  {
    IngestAppends(table, batch, enc);
    forall j | 0 <= j < |batch|
      ensures Ingest(table, batch, enc)[|table| + j].cackleId == batch[j].id
      ensures Ingest(table, batch, enc)[|table| + j].id == |table| + j + 1
    {
      IngestAppends(table, batch[..j], enc);
    }
  }

  /** The appended rows, taken on their own, carry the batch's remote ids. */
  lemma RestCarriesBatchIds(table: seq<Row>, batch: seq<RawComment>, enc: Encoding)
    ensures |Ingest(table, batch, enc)| == |table| + |batch|
    ensures var rest := Ingest(table, batch, enc)[|table|..];
      |rest| == |batch| && forall j :: 0 <= j < |batch| ==> rest[j].cackleId == batch[j].id
  {
    BatchIds(table, batch, enc);
    var t := Ingest(table, batch, enc);
    forall j | 0 <= j < |batch| ensures t[|table|..][j].cackleId == batch[j].id {
      assert t[|table|..][j] == t[|table| + j];
    }
  }

  /** In a table followed by rows carrying the batch's remote ids, a remote id
      is found among the original rows first, then in batch order. */
  lemma LookupAfterBatch(table: seq<Row>, rows: seq<Row>, batch: seq<RawComment>, cackleId: int)
    requires |rows| == |batch|
    requires forall j :: 0 <= j < |batch| ==> rows[j].cackleId == batch[j].id
    ensures FindByCackleId(table, cackleId).Some? ==>
      FindByCackleId(table + rows, cackleId) == FindByCackleId(table, cackleId)
    ensures FindByCackleId(table, cackleId).None? && FirstInBatch(batch, cackleId).Some? ==>
      FindByCackleId(table + rows, cackleId) == Some(|table| + FirstInBatch(batch, cackleId).value)
    ensures FindByCackleId(table, cackleId).None? && FirstInBatch(batch, cackleId).None? ==>
      FindByCackleId(table + rows, cackleId) == None
  {
    var t := table + rows;
    assert t[..|table|] == table && t[|table|..] == rows;
    FindThroughPrefix(t, |table|, cackleId);
    SameFirst(rows, batch, cackleId);
  }

  /** Rows carrying the batch's remote ids are searched like the batch. */
  lemma {:induction false} SameFirst(rows: seq<Row>, batch: seq<RawComment>, cackleId: int)
    requires |rows| == |batch|
    requires forall j :: 0 <= j < |batch| ==> rows[j].cackleId == batch[j].id
    ensures FindByCackleId(rows, cackleId) == FirstInBatch(batch, cackleId)
  {
    if rows != [] {
      SameFirst(rows[1..], batch[1..], cackleId);
    }
  }

  /**
   * Parent linkage of the row stored for `batch[k]`: 0 for an empty parent id;
   * otherwise the local id of the first stored row with that remote id, where
   * rows inserted earlier in the same batch count; 0 when there is none, so a
   * reply listed before its parent stays unlinked.
   */
  lemma ParentLinkage(table: seq<Row>, batch: seq<RawComment>, k: nat, enc: Encoding)
    requires k < |batch|
    ensures |Ingest(table, batch, enc)| == |table| + |batch|
    ensures var parent := Ingest(table, batch, enc)[|table| + k].parentId;
      var pid := batch[k].parentId;
      && (ParentIdEmpty(pid) ==> parent == 0)
      && (!ParentIdEmpty(pid) && FindByCackleId(table, pid.value).Some? ==>
            parent == table[FindByCackleId(table, pid.value).value].id)
      && (!ParentIdEmpty(pid) && FindByCackleId(table, pid.value).Some? && IdsArePositions(table) ==>
            parent == FindByCackleId(table, pid.value).value + 1)
      && (!ParentIdEmpty(pid) && FindByCackleId(table, pid.value).None? &&
          FirstInBatch(batch[..k], pid.value).Some? ==>
            parent == |table| + FirstInBatch(batch[..k], pid.value).value + 1)
      && (!ParentIdEmpty(pid) && FindByCackleId(table, pid.value).None? &&
          FirstInBatch(batch[..k], pid.value).None? ==>
            parent == 0)
  {
    IngestedParent(table, batch, k, enc);
    var pid := batch[k].parentId;
    if !ParentIdEmpty(pid) {
      var before := Ingest(table, batch[..k], enc);
      IngestKeepsRows(table, batch[..k], enc);
      RestCarriesBatchIds(table, batch[..k], enc);
      var rows := before[|table|..];
      assert before == table + rows;
      LookupAfterBatch(table, rows, batch[..k], pid.value);
      match FindByCackleId(table, pid.value)
      case Some(i) =>
        assert before[i] == table[i];
      case None =>
        match FirstInBatch(batch[..k], pid.value)
        case Some(j) =>
          BatchIds(table, batch[..k], enc);
        case None =>
    }
  }

  /** Searching a table whose first `n` rows hold no match is searching the rest. */
  lemma FindThroughPrefix(t: seq<Row>, n: nat, cackleId: int)
    requires n <= |t|
    ensures FindByCackleId(t[..n], cackleId).Some? ==>
      FindByCackleId(t, cackleId) == FindByCackleId(t[..n], cackleId)
    ensures FindByCackleId(t[..n], cackleId).None? ==>
      FindByCackleId(t, cackleId) == (match FindByCackleId(t[n..], cackleId)
        case None => None
        case Some(j) => Some(n + j))
  {
    var a := FindByCackleId(t, cackleId);
    var b := FindByCackleId(t[..n], cackleId);
    var c := FindByCackleId(t[n..], cackleId);
    if b.Some? {
      assert t[b.value] == t[..n][b.value];
      forall j | 0 <= j < b.value ensures t[j].cackleId != cackleId {
        assert t[j] == t[..n][j];
      }
      UniqueFirst(t, cackleId, b.value);
    } else {
      if c.Some? {
        assert t[n + c.value] == t[n..][c.value];
        forall j | 0 <= j < n + c.value ensures t[j].cackleId != cackleId {
          if j < n { assert t[j] == t[..n][j]; } else { assert t[j] == t[n..][j - n]; }
        }
        UniqueFirst(t, cackleId, n + c.value);
      } else {
        forall j | 0 <= j < |t| ensures t[j].cackleId != cackleId {
          if j < n { assert t[j] == t[..n][j]; } else { assert t[j] == t[n..][j - n]; }
        }
      }
    }
  }

  /** The first match is determined by its defining properties. */
  lemma UniqueFirst(t: seq<Row>, cackleId: int, i: nat)
    requires i < |t| && t[i].cackleId == cackleId
    requires forall j :: 0 <= j < i ==> t[j].cackleId != cackleId
    ensures FindByCackleId(t, cackleId) == Some(i)
  {
  }
}
