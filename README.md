# Cackle comment sync, modelled in Dafny

A model of the PHP class `Cackle` (Cackle.php), which pulls new comments
from the cackle.me comment service into a local database and renders the
stored, approved comments as HTML next to the service's widget script.

The database is abstracted into two fields of the class `CackleSync.Cackle`:
the comments table as a sequence of `Row`s in storage order, where a row's
local id is its auto-increment position, and the `common` key/value table
(rows `last_comment` and `last_time`) as a map. The network call, the JSON
decoder, the clock and `iconv` are parameters.

- `Status`: `_getStatus`, the case-insensitive map from the API's status text
  to the codes 0 (pending) to 4 (deleted).
- `Authors`: `_getAuthor`, the normalisation of an author or anonymous poster.
  PHP's `empty()` is `Php.Empty` (null, `""` or `"0"`).
- `Jsonp`: the strip step of `_cackleJsonDecode`. When the body contains
  `jQuery(`, every `jQuery(` and then every `);` is removed in one left-to-right
  pass each (`Php.RemoveAll` is `str_replace` with an empty replacement). The
  removal also hits a `);` inside the payload, which `Jsonp.StripDamagesPayload`
  shows.
- `Comments`: the rows `pushComments` inserts. `Ingest` is the table after a
  batch, each comment's parent looked up by remote id among the rows stored
  so far, including rows of the same batch.
- `Cron`: the check-and-set of `_isCron` as a function of the stored marker,
  the period and the caller's `now`.
- `Render`: `_cackleComment`, the query and loop of `_getComments`, and the
  page of `showComments`. No field is HTML-escaped, as in the source.
- `CackleSync`: the class with its constructor (including the automatic sync),
  `IsCron`, `PushComments`, `SyncComments`, `GetComments`, `ShowComments`, and
  the scenario lemmas.

## Model

| member | source | states |
|---|---|---|
| Status.GetStatus | Cackle.php:211-231 | the code is between 0 and 4, and is 1, 2, 3 or 4 exactly when the lowered text is approved, rejected, spam or deleted |
| Status.StatusIgnoresCase | Cackle.php:213-229 | the code does not change when the text is lowered first; each non-pending code is given exactly by the case variants of its word, and every other text (pending, unknown, empty) gives 0 |
| Status.StatusExamples | Cackle.php:211-231 | "APPROVED" gives 1, "Spam" gives 3, and "pending", "bogus" and "" give 0 |
| Authors.GetAuthor | Cackle.php:191-201 | id, name and email are copied; website and avatar are null exactly when the source value is empty (null, "" or "0") and copied otherwise; the provider is null exactly when unset, "cackle" when set to "", and copied otherwise |
| Authors.GetAuthorIdempotent | Cackle.php:191-201 | normalising a normalised author changes nothing, and the result never holds an empty website, avatar or provider |
| Comments.Encoding.ConvertOpt | Cackle.php:178-181 | with a code page that lowercases to utf-8 the value is unchanged; otherwise it is the converted text, null read as ""; so a null is stored only under utf-8 and only for a null value |
| Php.RemoveAllAbsent | Cackle.php:290-291 | str_replace with an empty replacement leaves text that lacks the needle unchanged |
| Php.RemoveAllIsOnePass | Cackle.php:290 | the removal is one pass: "jQjQuery(uery(" becomes "jQuery(" |
| Jsonp.Strip | Cackle.php:289-292 | a body without `jQuery(` passes through unchanged, and the result is never longer than the body |
| Jsonp.StripUnwraps | Cackle.php:289-292 | stripping `"jQuery(" + p + ");"` gives back p whenever p contains neither `jQuery(` nor `);` |
| Jsonp.StripDamagesPayload | Cackle.php:291 | a `);` inside a wrapped payload is removed too: the payload `[");"]`, wrapped, strips to `[""]` |
| Comments.FindByCackleId | Cackle.php:139-145 | the parent lookup finds the first stored row with the remote id, or reports that no row has it |
| Comments.IngestAppends | Cackle.php:134-167 | a batch appends exactly one row per comment, in input order, leaves the earlier rows unchanged, and builds the row of comment k against the table holding the rows of the comments before it |
| Comments.IngestKeepsRows | Cackle.php:134-167 | the table grows by the batch length and its old rows are a prefix of the new table |
| Comments.IngestedParent | Cackle.php:138-146 | the parent column of comment k is resolved against the table as it stood just before that comment |
| Comments.IngestedRow | Cackle.php:135-163 | the row of comment k has the local id old length + k + 1, the comment's remote id, site, rating, created and ip, the status code of `_getStatus`, the converted channel, message and media, the author id of `_getAuthor`, and its name, email, website, avatar and provider each converted, and the parent resolved against the table just before it |
| Comments.IngestedAuthor | Cackle.php:136 | the author columns come from the author object unless it is empty, and then from the anonym object; under utf-8 the website and avatar are null exactly when the chosen value is empty, the provider is null exactly when unset, and an empty provider is stored as "cackle" |
| Comments.IngestKeepsIds | Cackle.php:164 | local ids stay equal to auto-increment positions |
| Comments.BatchIds | Cackle.php:148-164 | the rows of a batch carry the batch's remote ids and consecutive local ids |
| Comments.LookupAfterBatch | Cackle.php:139-145 | in the table followed by rows carrying a batch's remote ids, a remote id resolves to the first original row with it, else to the first batch row with it, else to nothing |
| Comments.IngestStep | Cackle.php:134-167 | each loop step appends the row of comment i to the table left by the comments before it |
| Comments.ParentLinkage | Cackle.php:138-146 | the parent is 0 when parentId is empty; else the local id of the first stored row with that remote id (its position + 1 when local ids are positions), rows earlier in the same batch included; else 0, so a reply listed before its parent stays unlinked |
| Cron.CronGate | Cackle.php:240-258 | a sync is due exactly when there is no marker or at least cronTime seconds have passed since it; when due the marker becomes now, otherwise it stays |
| Cron.SecondCheckNotDue | Cackle.php:245-256 | with a positive period, a second check at the same moment is not due |
| Cron.DueChecksAreSpaced | Cackle.php:250-256 | two consecutive checks that are both due lie at least the period apart |
| Cron.MarkersMonotone | Cackle.php:240-258 | over checks at non-decreasing times the stored marker never decreases and never passes the latest check |
| Render.AuthorHtml | Cackle.php:364-368 | the author is a link exactly when the provider is not empty, and the name closes the element verbatim |
| Render.CommentHtmlShape | Cackle.php:358-378 | the item's id derives from the local id, and the item ends with the message verbatim and the closing tags |
| Render.Selected | Cackle.php:339-340 | a row is returned exactly when it is in the table with the site id, the channel and status 1 |
| Render.SelectedAppend | Cackle.php:339-343 | the query over appended rows returns the earlier selection followed by the new one, so storage order is kept |
| Render.RenderList | Cackle.php:341-343 | the items of a non-empty selection form a text PHP does not treat as empty |
| Render.RenderListAppend | Cackle.php:341-343 | the items of appended rows follow the items of the earlier rows unchanged |
| Render.RenderRows | Cackle.php:341-343 | the fetch loop appends one item per row, in order, giving the items of all rows |
| Render.CommentsSection | Cackle.php:335-349 | the section is empty exactly when there is no connection or no row is selected, and otherwise is the content list wrapped around the items of the selected rows in storage order |
| Render.SectionOfOne | Cackle.php:335-349 | a single selected row gives the content list around its one item |
| Render.Page | Cackle.php:303-326 | the page opens with the container holding the section and ends with the channel variable and the widget loader |
| CackleSync.SetCursor | Cackle.php:126 | the update creates no cursor row; an existing one takes the id; every other row keeps its value |
| CackleSync.Advance | Cackle.php:166 | after a non-empty batch an existing cursor holds the last comment's id; no cursor row is created and no other row changes; an empty batch changes nothing |
| CackleSync.AdvanceStep | Cackle.php:166 | each comment of the loop moves the cursor to its own id |
| CackleSync.CursorIsLastNotMax | Cackle.php:166 | ids 5 then 3 leave the cursor at 3: it is the last id, not the largest |
| CackleSync.WithCursor | Cackle.php:93-101 | before fetching, a cursor row exists: the stored value, or 0 when there was none; no other row changes |
| CackleSync.Cackle.constructor | Cackle.php:59-79 | the configuration is stored; without a positive timer, a connection and both keys the tables are untouched; otherwise the cron marker is as the gate leaves it, and stored rows stay a prefix |
| CackleSync.Cackle.IsCron | Cackle.php:240-258 | the answer and the new last_time row are those of the gate on the stored marker |
| CackleSync.Cackle.PushComments | Cackle.php:119-169 | without comments it returns false and changes nothing; otherwise true, the table is the ingested table and the cursor the last comment's id (when the cursor row exists) |
| CackleSync.Cackle.SyncComments | Cackle.php:86-110 | the request carries the stored cursor as id, or no id when none was stored, and the cursor row then exists with 0; the result is false when the fetch fails or decodes to nothing, true after pushing a non-empty batch |
| CackleSync.Cackle.GetComments | Cackle.php:335-349 | the result is the section of the selected rows: nothing without a connection or rows, else their items in storage order inside the content list |
| CackleSync.Cackle.ShowComments | Cackle.php:303-326 | as written, the page's section is selected with the site id's text as channel |
| CackleSync.Cackle.ShowCommentsIntended | Cackle.php:303-326 | the page's section lists the approved rows of the given channel |
| CackleSync.IngestKeepsListing | Cackle.php:339-343 | after a sync the listed rows, and their HTML items, are the earlier ones followed by those of the new rows |
| CackleSync.CursorIsMaxWhenIncreasing | Cackle.php:166 | with strictly increasing ids in a batch, the cursor it leaves is the largest id |
| CackleSync.AsWrittenIgnoresChannel | Cackle.php:309 | as written, no row filed under a channel other than the site id's text is listed |
| CackleSync.ShowCommentsChannelBug | Cackle.php:309 | an approved row on channel "page" of site 7 is missing from the section as written and present in the intended one |
| CackleSync.TwoCommentScenario | Cackle.php:134-167 | an approved comment and a pending reply in one batch: the reply links to the first comment's local id and only the first is listed |
| CackleSync.TwoCommentListing | Cackle.php:335-349 | the same two comments render as the content list holding the first comment's item alone |

## Left out

- `_curl` (Cackle.php:267-278): the network call is the parameter `fetch`, a function from the request parameters to the body or a failure.
- `json_decode` (Cackle.php:293): the parameter `decode`; `None` stands for every result PHP's `empty()` accepts (null on malformed input, `[]`, `""`, `0`, `false`).
- `date('Y-m-d H:i:s', created/1000)` (Cackle.php:159): the row keeps the API's millisecond value.
- `iconv` (Cackle.php:178-181): an uninterpreted total function of the code page and the text; its `false` result on failure is not modelled.
- `strtolower` changes ASCII letters only; a locale that folds other letters is not modelled.
- PDO, SQL text and prepared statements: the tables are a sequence and a map; a failing statement or an exception is not modelled.
- Local ids are modelled as auto-increment positions starting at 1; a table whose ids have gaps is not modelled.
- Without a connection, `syncComments`, `_isCron` and `pushComments` with comments stop with a PHP fatal error; their `requires` say the connection exists.
- An author object whose keys are present with null values is treated like an absent one.
- `RawAuthor.IsEmpty` treats an author object that holds only keys the model does not know (for example `{"foo":1}`) as absent and falls back to the anonym object, while PHP's `empty()` is false for it (Cackle.php:136).
- The comment fields `channel`, `message`, `media` and `ip` are always present strings; a missing or null value (Cackle.php:150, 160-162) is not modelled.
- `_isCron` reads `time()` separately for the comparison and for the stored value (Cackle.php:246, 250, 253); the model uses one `now` for the whole check.
- The `channel` and `cackle_id` comparisons of the SQL queries are exact here; a MySQL collation that ignores case or trailing spaces (such as that of the cp1251 connection in the usage example, Cackle.php:21) is not modelled.
- The `_getComments` query has no ORDER BY; the model returns rows in primary-key (storage) order.
- A `comments` value that is not a list is not modelled.
- The widget script of `showComments` is kept as a fixed string.
- Races between concurrent requests on the cursor or the cron marker are not modelled; each request runs alone.
- CackleSync.Cackle.constructor: states the stored prefix and the cron marker after the automatic sync, not the whole new tables; `SyncComments` states those.

## Findings

| source | as written | input that shows it | evidently intended | confidence | as-written member | corrected member |
|---|---|---|---|---|---|---|
| Cackle.php:309 | `showComments` calls `_getComments($this->siteId, $channel)` but `_getComments` takes only `$channel` (Cackle.php:335), so the site id is bound to `:channel` | site 7, one approved row on channel "page": the section is empty (`CackleSync.ShowCommentsChannelBug`) | `_getComments($channel)`, listing the approved rows of the requested channel | not executed | CackleSync.Cackle.ShowComments | CackleSync.Cackle.ShowCommentsIntended |
