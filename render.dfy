/** The HTML written by `_cackleComment`, `_getComments` and `showComments`. */
module Render {
  import opened Wrappers
  import opened Php
  import opened Status
  import opened Comments

  /** The `<a>` or `<span>` that names a comment's author: a link to the
      author's website when the row has a non-empty provider. */
  function AuthorHtml(r: Row): (html: string)
    ensures StartsWith(html, "<a ") <==> !Empty(r.authorProvider)
    ensures !Empty(r.authorProvider) ==> EndsWith(html, Text(r.authorName) + "</a>")
    ensures Empty(r.authorProvider) ==> EndsWith(html, Text(r.authorName) + "</span>")
  {
    var id := IntText(r.id);
    if Empty(r.authorProvider) then
      var open := "<span id=\"cackle-author-user-" + id + "\">";
      var html := open + (Text(r.authorName) + "</span>");
      ConcatStartsAndEnds(open, Text(r.authorName) + "</span>");
      assert html[1] == 's';
      html
    else
      var open := "<a id=\"cackle-author-user-" + id + "\" href=\"" + Text(r.authorWww) + "\" rel=\"nofollow\">";
      var html := open + (Text(r.authorName) + "</a>");
      ConcatStartsAndEnds(open, Text(r.authorName) + "</a>");
      assert html[..3] == open[..3] == "<a ";
      html
  }

  const CommentTail := "</div></div></li>"

  /** `_cackleComment`: one list item whose element ids derive from the local
      id, holding the author markup and then the message verbatim. */
  function CommentHtml(r: Row): (html: string)
    ensures |html| > 1
  {
    var n := IntText(r.id);
    var li := "<li id=\"cackle-comment-" + n + "\">";
    var header := "<div id=\"cackle-comment-header-" + n + "\" class=\"cackle-comment-header\">"
      + "<cite id=\"cackle-cite-" + n + "\">";
    var body := "</cite>" + "</div>"
      + "<div id=\"cackle-comment-body-" + n + "\" class=\"cackle-comment-body\">"
      + "<div id=\"cackle-comment-message-" + n + "\" class=\"cackle-comment-message\">";
    var mid := header + AuthorHtml(r) + body;
    (li + mid) + (r.message + CommentTail)
  }

  /** The item opens with the `<li>` carrying the local id and closes with the
      message, verbatim, and the closing tags. */
  lemma CommentHtmlShape(r: Row)
    ensures StartsWith(CommentHtml(r), "<li id=\"cackle-comment-" + IntText(r.id) + "\">")
    ensures EndsWith(CommentHtml(r), r.message + CommentTail)
  {
    var n := IntText(r.id);
    var li := "<li id=\"cackle-comment-" + n + "\">";
    var header := "<div id=\"cackle-comment-header-" + n + "\" class=\"cackle-comment-header\">"
      + "<cite id=\"cackle-cite-" + n + "\">";
    var body := "</cite>" + "</div>"
      + "<div id=\"cackle-comment-body-" + n + "\" class=\"cackle-comment-body\">"
      + "<div id=\"cackle-comment-message-" + n + "\" class=\"cackle-comment-message\">";
    var mid := header + AuthorHtml(r) + body;
    var suffix := r.message + CommentTail;
    assert CommentHtml(r) == (li + mid) + suffix;
    ConcatStartsAndEnds(li + mid, suffix);
    ConcatStartsAndEnds(li, mid);
    StartsWithExtend(li + mid, suffix, li);
  }

  /** The WHERE clause of `_getComments`. */
  predicate Listed(r: Row, siteId: int, channel: string)
  {
    r.siteId == siteId && r.channel == channel && r.status == Approved
  }

  /** The rows the query returns: the approved rows of the site and channel,
      in storage order. */
  function Selected(rows: seq<Row>, siteId: int, channel: string): (sel: seq<Row>)
    ensures forall r :: r in sel <==> r in rows && Listed(r, siteId, channel)
    ensures |sel| <= |rows|
  {
    if rows == [] then []
    else (if Listed(rows[0], siteId, channel) then [rows[0]] else []) + Selected(rows[1..], siteId, channel)
  }

  /** Selection distributes over appending rows: rows added to the table are
      listed after the earlier ones, and the earlier selection is kept. */
  lemma {:induction false} SelectedAppend(a: seq<Row>, b: seq<Row>, siteId: int, channel: string)
    ensures Selected(a + b, siteId, channel) == Selected(a, siteId, channel) + Selected(b, siteId, channel)
  {
    if a == [] {
      assert a + b == b;
    } else {
      assert (a + b)[0] == a[0];
      assert (a + b)[1..] == a[1..] + b;
      SelectedAppend(a[1..], b, siteId, channel);
    }
  }

  /** The `<li>` items of the fetched rows, concatenated in fetch order. */
  function RenderList(rows: seq<Row>): (out: string)
    ensures rows != [] ==> |out| > 1
  {
    if rows == [] then ""
    else RenderList(rows[..|rows| - 1]) + CommentHtml(rows[|rows| - 1])
  }

  lemma RenderListLast(rows: seq<Row>)
    requires rows != []
    ensures RenderList(rows) == RenderList(rows[..|rows| - 1]) + CommentHtml(rows[|rows| - 1])
  {
  }

  lemma RenderListSnoc(rows: seq<Row>, i: nat)
    requires i < |rows|
    ensures RenderList(rows[..i + 1]) == RenderList(rows[..i]) + CommentHtml(rows[i])
  {
    PrefixStep(rows, i);
    RenderListLast(rows[..i + 1]);
  }

  lemma ConcatAssoc(x: string, y: string, z: string)
    ensures (x + y) + z == x + (y + z)
  {
  }

  /** The items of appended rows follow the items of the earlier rows. */
  lemma {:induction false} RenderListAppend(a: seq<Row>, b: seq<Row>)
    ensures RenderList(a + b) == RenderList(a) + RenderList(b)
    decreases |b|
  {
    if b == [] {
      assert a + b == a;
    } else {
      var n := |b| - 1;
      var ab := a + b;
      assert ab[..|ab| - 1] == a + b[..n];
      assert ab[|ab| - 1] == b[n];
      var item := CommentHtml(b[n]);
      calc {
        RenderList(ab);
        { RenderListLast(ab); }
        RenderList(ab[..|ab| - 1]) + CommentHtml(ab[|ab| - 1]);
        RenderList(a + b[..n]) + item;
        { RenderListAppend(a, b[..n]); }
        (RenderList(a) + RenderList(b[..n])) + item;
        { ConcatAssoc(RenderList(a), RenderList(b[..n]), item); }
        RenderList(a) + (RenderList(b[..n]) + item);
        { RenderListLast(b); }
        RenderList(a) + RenderList(b);
      }
    }
  }

  /** The loop of `_getComments` that appends one item per fetched row. */
  method RenderRows(rows: seq<Row>) returns (out: string)
    ensures out == RenderList(rows)
  {
    out := "";
    for i := 0 to |rows|
      invariant out == RenderList(rows[..i])
    {
      RenderListSnoc(rows, i);
      out := out + CommentHtml(rows[i]);
    }
    assert rows[..|rows|] == rows;
  }

  const ListOpen := "<div id=\"mc-content\"><ul id=\"cackle-comments\">"
  const ListClose := "</ul></div>"

  /**
   * What `_getComments` returns: nothing without a database connection or
   * when no row is listed; otherwise the items wrapped in the content list.
   */
  function CommentsSection(hasDb: bool, rows: seq<Row>, siteId: int, channel: string): (out: string)
    ensures out == "" <==> !hasDb || Selected(rows, siteId, channel) == []
    ensures out != "" ==> out == ListOpen + RenderList(Selected(rows, siteId, channel)) + ListClose
  {
    if !hasDb then ""
    else
      var items := RenderList(Selected(rows, siteId, channel));
      if EmptyString(items) then ""
      else
        ListOpen + items + ListClose
  }

  /** A single listed row is rendered as one item inside the content list. */
  lemma SectionOfOne(rows: seq<Row>, siteId: int, channel: string, r: Row)
    requires Selected(rows, siteId, channel) == [r]
    ensures CommentsSection(true, rows, siteId, channel) == ListOpen + CommentHtml(r) + ListClose
  {
    var items := RenderList([r]);
    assert items == CommentHtml(r) by {
      RenderListLast([r]);
      assert [r][..0] == [];
    }
    assert CommentsSection(true, rows, siteId, channel) == ListOpen + items + ListClose;
  }

  const ContainerOpen := "\n         <div id=\"mc-container\">\n            "

  /** The widget loader that follows the two script variables. */
  const WidgetLoader :=
    "        document.getElementById(\"mc-container\").innerHTML = \"\";\n"
    + "        (function() {\n"
    + "            var mc = document.createElement(\"script\");\n"
    + "            mc.type = \"text/javascript\";\n"
    + "            mc.async = true;\n"
    + "            mc.src = \"//cackle.me/mc.widget-min.js\";\n"
    + "            (document.getElementsByTagName(\"head\")[0] || document.getElementsByTagName(\"body\")[0]).appendChild(mc);\n"
    + "        })();\n"
    + "        </script>\n"
    + "        "

  /**
   * The markup of `showComments`: the container holding the comments section,
   * then the script naming the site and the channel (both unescaped) and
   * loading the widget, which replaces the container's contents.
   */
  function Page(siteId: int, channel: string, section: string): (html: string)
    ensures StartsWith(html, ContainerOpen + section)
    ensures EndsWith(html, "var mcChannel = \"" + channel + "\";\n" + WidgetLoader)
  {
    var head := ContainerOpen + section;
    var tail := "var mcChannel = \"" + channel + "\";\n" + WidgetLoader;
    var site := "\n        </div>\n\n        <script type=\"text/javascript\">\n"
      + "        var mcSite = \"" + IntText(siteId) + "\";\n"
      + "        ";
    ConcatStartsAndEnds(head + site, tail);
    ConcatStartsAndEnds(head, site);
    StartsWithExtend(head + site, tail, head);
    (head + site) + tail
  }
}
