/**
  * The documents the export writes: the stand-alone HTML page (also the
  * input of the PDF printer) and the MDX file with its front matter.
  * The markdown-to-HTML converter is a parameter (`parse`), and so is the
  * ISO timestamp the MDX front matter carries (`now`).
  */
module Render {
  import opened Wrappers
  import opened Text
  import Toc

  /** The export options that shape a document. */
  datatype Options = Options(title: Option<Str>, author: Option<Str>, toc: bool)

  /** The title: `--title` when non-empty, else `Report`. */
  function Title(o: Options): (t: Str)
    ensures Present(o.title) ==> t == o.title.value
    ensures !Present(o.title) ==> t == "Report"
    ensures t != []
  {
    Or(o.title, "Report")
  }

  /** The author: `--author` when non-empty, else empty. */
  function Author(o: Options): (a: Str)
    ensures Present(o.author) ==> a == o.author.value
    ensures !Present(o.author) ==> a == []
  {
    Or(o.author, "")
  }

  // ----- HTML -----

  /** The page up to and including the opening `<title>` tag. */
  const HeadOpen: Str := "<!DOCTYPE html>\n<html>\n<head>\n  <meta charset=\"UTF-8\">\n"
    + "  <meta name=\"viewport\" content=\"width=device-width, initial-scale=1.0\">\n  <title>"

  /** The style sheet, between `<style>` and `</style>`. */
  const Css: Str := "\n    body {\n      font-family: -apple-system, BlinkMacSystemFont, 'Segoe UI', Roboto, Oxygen, Ubuntu, Cantarell, sans-serif;"
    + "\n      line-height: 1.6;\n      max-width: 800px;\n      margin: 0 auto;\n      padding: 2rem;\n      color: #333;\n    }"
    + "\n    h1, h2, h3 { color: #2c3e50; }"
    + "\n    code { background: #f4f4f4; padding: 0.2rem 0.4rem; border-radius: 3px; }"
    + "\n    pre { background: #f4f4f4; padding: 1rem; border-radius: 5px; overflow-x: auto; }"
    + "\n    table { border-collapse: collapse; width: 100%; margin: 1rem 0; }"
    + "\n    th, td { border: 1px solid #ddd; padding: 0.75rem; text-align: left; }"
    + "\n    th { background: #f8f9fa; font-weight: 600; }\n  "

  /** From the closing `</title>` tag to the point where the body's content starts. */
  const HeadClose: Str := "</title>\n  <style>" + Css + "</style>\n</head>\n<body>\n  "

  const Tail: Str := "\n</body>\n</html>"

  /** The author line from its `<em>` on, and its closing tags. */
  const EmOpen: Str := "<em>Author: "
  const BylineClose: Str := "</em></p>"

  /** The author line; none for an empty author. */
  function Byline(author: Str): Str {
    if author == [] then [] else "<hr><p>" + EmOpen + author + BylineClose
  }

  /** The contents list when `--toc` is given. */
  function TocBlock(md: Str, o: Options): Str {
    if o.toc then Toc.GenerateToc(md) else []
  }

  /**
    * The page `exportToHtml` writes. Read back, its title is the effective
    * title; its body is the contents list (when asked for) built from the
    * raw markdown, then the converted markdown, then the author line; the
    * contents list reads back as the headings' entries and the author line
    * as the author. A title, heading text or author holding `<` cannot be
    * told apart from the markup around it.
    */
  function HtmlDocument(md: Str, o: Options, parse: Str -> Str): (doc: Str)
    ensures '<' !in Title(o) ==> ReadTitle(doc) == Some(Title(o))
    ensures '<' !in Title(o) ==> (ShowsToc(doc) <==> o.toc && Toc.Headings(md) != [])
    ensures ShowsByline(doc) <==> Author(o) != []
    ensures '<' !in Title(o) ==>
              ReadBody(doc) == Some(TocBlock(md, o) + ("\n  " + parse(md) + "\n  " + Byline(Author(o))))
    ensures '<' !in Title(o) && o.toc && Toc.Headings(md) != [] && Toc.PlainTexts(md) ==>
              Toc.ReadTocAt(ReadBody(doc).value) == Some((Toc.Entries(md), "\n  " + parse(md) + "\n  " + Byline(Author(o))))
    ensures Author(o) != [] && '<' !in Author(o) ==> ReadAuthor(doc) == Some(Author(o))
  {
    TocBlockStart(md, o);
    TocBlockRead(md, o, "\n  " + parse(md) + "\n  " + Byline(Author(o)));
    HtmlPage(Title(o), TocBlock(md, o), parse(md), Author(o))
  }

  /** The page around a contents list, converted markdown and author: what each part reads back as. */
  function HtmlPage(title: Str, toc: Str, html: Str, author: Str): (doc: Str)
    ensures '<' !in title ==> ReadTitle(doc) == Some(title)
    ensures '<' !in title ==> (ShowsToc(doc) <==> toc != [] && toc[0] == '<')
    ensures ShowsByline(doc) <==> author != []
    ensures '<' !in title ==> ReadBody(doc) == Some(toc + ("\n  " + html + "\n  " + Byline(author)))
    ensures author != [] && '<' !in author ==> ReadAuthor(doc) == Some(author)
  {
    PageRead(title, toc, html, author);
    PageParts(title, toc, html, author);
    Page(HeadOpen, title, HeadClose, BodyText(toc, html, Byline(author)))
  }

  function Page(head: Str, title: Str, close: Str, body: Str): Str {
    head + (title + (close + body))
  }

  /** What follows the head: the contents list, the converted markdown and the author line. */
  function BodyText(toc: Str, html: Str, byline: Str): Str {
    toc + "\n  " + html + "\n  " + byline + Tail
  }

  /** The text after `head` up to the next `<`. */
  function ReadTitleAfter(head: Str, doc: Str): (r: Option<Str>)
    ensures r.Some? ==> head <= doc && |head| + |r.value| <= |doc|
  {
    if head <= doc then
      var rest := doc[|head|..];
      var k := IndexOf(rest, '<');
      if k.None? then None else Some(rest[..k.value])
    else None
  }

  /** The text of the `<title>` element. */
  function ReadTitle(doc: Str): Option<Str> {
    ReadTitleAfter(HeadOpen, doc)
  }

  /** What lies between `close` and `tail`, once the title after `head` is read. */
  function BodyAfter(head: Str, close: Str, tail: Str, doc: Str): Option<Str> {
    match ReadTitleAfter(head, doc)
    case None => None
    case Some(t) =>
      match Toc.Expect(doc[|head| + |t|..], close)
      case None => None
      case Some(u) =>
        if |u| >= |tail| && u[|u| - |tail|..] == tail then Some(u[..|u| - |tail|]) else None
  }

  /** The page's body: the text between `<body>` and `</body>`, with the indentation around it. */
  function ReadBody(doc: Str): Option<Str> {
    BodyAfter(HeadOpen, HeadClose, Tail, doc)
  }

  /** The text between the last `<` before the closing `close`, followed by the rest of `open`, and `close`. */
  function NameBefore(open: Str, close: Str, doc: Str): Option<Str> {
    if |doc| >= |close| && doc[|doc| - |close|..] == close then
      var front := doc[..|doc| - |close|];
      match LastIndexOf(front, '<')
      case None => None
      case Some(i) => Toc.Expect(front[i..], open)
    else None
  }

  /** The author an author line just before `Tail` names: the text after its `<em>Author: `. */
  function ReadAuthor(doc: Str): Option<Str> {
    NameBefore(EmOpen, BylineClose + Tail, doc)
  }

  /** Whether what follows `head`, the title and `close` opens a tag. */
  predicate OpensTagAfter(head: Str, close: Str, doc: Str) {
    var t := ReadTitleAfter(head, doc);
    t.Some? && |head| + |t.value| + |close| < |doc| && doc[|head| + |t.value| + |close|] == '<'
  }

  /** Whether the body opens with the contents list. */
  predicate ShowsToc(doc: Str) {
    OpensTagAfter(HeadOpen, HeadClose, doc)
  }

  /** Whether the body closes with an author line. */
  predicate ShowsByline(doc: Str) {
    |doc| > |Tail| && doc[|doc| - |Tail| - 1] == '>'
  }

  lemma HeadCloseOpensTag()
    ensures |HeadClose| > 0 && HeadClose[0] == '<'
  {
    var open := "</title>\n  <style>";
    assert HeadClose == open + (Css + "</style>\n</head>\n<body>\n  ");
    assert HeadClose[0] == open[0];
  }

  lemma PageTitleRead(head: Str, title: Str, close: Str, body: Str)
    requires '<' !in title && close != [] && close[0] == '<'
    ensures ReadTitleAfter(head, Page(head, title, close, body)) == Some(title)
  {
    var after := close[1..] + body;
    assert close + body == ['<'] + after by {
      assert close == [close[0]] + close[1..];
    }
    var rest := title + (['<'] + after);
    assert Page(head, title, close, body) == head + rest;
    assert (head + rest)[|head|..] == rest;
    assert rest == title + ['<'] + after;
    IndexOfAfter(title, '<', after);
    assert rest[..|title|] == title;
  }

  lemma PageOpensTag(head: Str, title: Str, close: Str, body: Str)
    requires ReadTitleAfter(head, Page(head, title, close, body)) == Some(title)
    ensures OpensTagAfter(head, close, Page(head, title, close, body)) <==> body != [] && body[0] == '<'
  {
    var doc := Page(head, title, close, body);
    var k := |head| + |title| + |close|;
    assert |doc| == k + |body|;
    if body != [] {
      assert doc[k] == body[0];
    }
  }

  lemma BodyTextStart(toc: Str, html: Str, byline: Str)
    ensures var b := BodyText(toc, html, byline);
            b != [] && b[0] == if toc == [] then '\n' else toc[0]
  {
  }

  lemma BodyTextEnd(toc: Str, html: Str, byline: Str)
    ensures var b := BodyText(toc, html, byline);
            |b| > |Tail| && b[|b| - |Tail| - 1] == if byline == [] then ' ' else byline[|byline| - 1]
  {
    var front := toc + "\n  " + html + "\n  " + byline;
    assert BodyText(toc, html, byline) == front + Tail;
  }

  lemma PageEnd(head: Str, title: Str, close: Str, body: Str)
    requires |body| > |Tail|
    ensures var doc := Page(head, title, close, body);
            |doc| > |Tail| && doc[|doc| - |Tail| - 1] == body[|body| - |Tail| - 1]
  {
  }

  lemma TocBlockStart(md: Str, o: Options)
    ensures TocBlock(md, o) != [] <==> o.toc && Toc.Headings(md) != []
    ensures TocBlock(md, o) != [] ==> TocBlock(md, o)[0] == '<'
  {
  }

  lemma BylineEnd(author: Str)
    ensures Byline(author) != [] <==> author != []
    ensures Byline(author) != [] ==> Byline(author)[|Byline(author)| - 1] == '>'
  {
    if author != [] {
      assert Byline(author) == ("<hr><p>" + EmOpen + author) + BylineClose;
      assert BylineClose[|BylineClose| - 1] == '>';
    }
  }

  lemma PageBylineShown(head: Str, title: Str, close: Str, toc: Str, html: Str, author: Str)
    ensures ShowsByline(Page(head, title, close, BodyText(toc, html, Byline(author)))) <==> author != []
  {
    var body := BodyText(toc, html, Byline(author));
    BodyTextEnd(toc, html, Byline(author));
    PageEnd(head, title, close, body);
    BylineEnd(author);
  }

  /** What a reader finds in a page built from these parts. */
  lemma PageRead(title: Str, toc: Str, html: Str, author: Str)
    ensures var doc := Page(HeadOpen, title, HeadClose, BodyText(toc, html, Byline(author)));
            && ('<' !in title ==> ReadTitle(doc) == Some(title))
            && ('<' !in title ==> (ShowsToc(doc) <==> toc != [] && toc[0] == '<'))
            && (ShowsByline(doc) <==> author != [])
  {
    var body := BodyText(toc, html, Byline(author));
    if '<' !in title {
      HeadCloseOpensTag();
      PageTitleRead(HeadOpen, title, HeadClose, body);
      PageOpensTag(HeadOpen, title, HeadClose, body);
      BodyTextStart(toc, html, Byline(author));
    }
    PageBylineShown(HeadOpen, title, HeadClose, toc, html, author);
  }

  /** The body and the author read back from a page built from these parts. */
  lemma PageParts(title: Str, toc: Str, html: Str, author: Str)
    ensures var doc := Page(HeadOpen, title, HeadClose, BodyText(toc, html, Byline(author)));
            && ('<' !in title ==> ReadBody(doc) == Some(toc + ("\n  " + html + "\n  " + Byline(author))))
            && (author != [] && '<' !in author ==> ReadAuthor(doc) == Some(author))
  {
    var inner := toc + "\n  " + html + "\n  " + Byline(author);
    assert BodyText(toc, html, Byline(author)) == inner + Tail;
    assert inner == toc + ("\n  " + html + "\n  " + Byline(author));
    if '<' !in title {
      HeadCloseOpensTag();
      BodyRead(HeadOpen, title, HeadClose, inner, Tail);
    }
    if author != [] && '<' !in author {
      var pre := toc + "\n  " + html + "\n  ";
      PageEndsWith(HeadOpen, title, HeadClose, pre, Byline(author));
      AuthorRead(HeadOpen + (title + (HeadClose + pre)), author);
    }
  }

  lemma BodyRead(head: Str, title: Str, close: Str, inner: Str, tail: Str)
    requires '<' !in title && close != [] && close[0] == '<'
    ensures BodyAfter(head, close, tail, Page(head, title, close, inner + tail)) == Some(inner)
  {
    var doc := Page(head, title, close, inner + tail);
    var u := inner + tail;
    PageTitleRead(head, title, close, u);
    PageAfterTitle(head, title, close, u);
    Toc.ExpectOf(close, u);
    assert u[|u| - |tail|..] == tail && u[..|u| - |tail|] == inner;
    BodyAfterOf(head, close, tail, doc, title, u);
  }

  lemma PageAfterTitle(head: Str, title: Str, close: Str, body: Str)
    ensures Page(head, title, close, body)[|head| + |title|..] == close + body
  {
  }

  lemma BodyAfterOf(head: Str, close: Str, tail: Str, doc: Str, t: Str, u: Str)
    requires ReadTitleAfter(head, doc) == Some(t) && Toc.Expect(doc[|head| + |t|..], close) == Some(u)
    requires |u| >= |tail| && u[|u| - |tail|..] == tail
    ensures BodyAfter(head, close, tail, doc) == Some(u[..|u| - |tail|])
  {
  }

  lemma PageEndsWith(head: Str, title: Str, close: Str, pre: Str, byline: Str)
    ensures Page(head, title, close, pre + byline + Tail) == head + (title + (close + pre)) + byline + Tail
  {
  }

  /** A name without `<` after an opening that starts with its only `<` is read back before `close`. */
  lemma NameRead(a: Str, open: Str, name: Str, close: Str)
    requires open != [] && open[0] == '<' && '<' !in open[1..] && '<' !in name
    ensures NameBefore(open, close, a + open + name + close) == Some(name)
  {
    var named := open[1..] + name;
    assert '<' !in named by {
      forall j | 0 <= j < |named| ensures named[j] != '<' {
        if j < |open[1..]| {
          assert named[j] == open[1..][j];
        } else {
          assert named[j] == name[j - |open[1..]|];
        }
      }
    }
    var lead := a + ['<'] + named;
    assert open == ['<'] + open[1..];
    assert a + open + name + close == lead + close;
    var doc := lead + close;
    assert doc[|doc| - |close|..] == close && doc[..|doc| - |close|] == lead;
    LastIndexOfBefore(a, '<', named);
    assert lead[|a|..] == open + name;
    Toc.ExpectOf(open, name);
  }

  lemma EmOpenShape()
    ensures EmOpen != [] && EmOpen[0] == '<' && '<' !in EmOpen[1..]
  {
    assert EmOpen[1..] == "em>Author: ";
  }

  /** A page ending in the author line and `Tail` names its author, if the name holds no `<`. */
  lemma AuthorRead(front: Str, author: Str)
    requires author != [] && '<' !in author
    ensures ReadAuthor(front + Byline(author) + Tail) == Some(author)
  {
    EmOpenShape();
    var a := front + "<hr><p>";
    assert front + Byline(author) + Tail == a + EmOpen + author + (BylineClose + Tail);
    NameRead(a, EmOpen, author, BylineClose + Tail);
  }

  /** When the contents list is there and its texts hold no `<`, it reads back from the front of the body. */
  lemma TocBlockRead(md: Str, o: Options, rest: Str)
    ensures o.toc && Toc.Headings(md) != [] && Toc.PlainTexts(md) ==>
              Toc.ReadTocAt(TocBlock(md, o) + rest) == Some((Toc.Entries(md), rest))
  {
    if o.toc && Toc.Headings(md) != [] && Toc.PlainTexts(md) {
      Toc.TocThenRest(md, rest);
    }
  }

  // ----- MDX -----

  /** The five front-matter lines and the blank line after them; with no author its line is empty. */
  function FrontMatter(title: Str, author: Str, now: Str): seq<Str> {
    ["---", "title: \"" + title + "\"", if author == [] then [] else "author: \"" + author + "\"",
     "date: \"" + now + "\"", "---", ""]
  }

  /**
    * The file `exportToMdx` writes: the front matter, the markdown, and a
    * final newline. When none of title, author and timestamp holds a
    * newline, its lines are the front matter's, then the markdown's, then
    * an empty one, and it reads back as those fields and the markdown
    * unchanged.
    */
  function MdxDocument(md: Str, o: Options, now: Str): (doc: Str)
    ensures '\n' !in Title(o) && '\n' !in Author(o) && '\n' !in now ==>
              Split(doc, '\n') == FrontMatter(Title(o), Author(o), now) + Split(md, '\n') + [""]
    ensures '\n' !in Title(o) && '\n' !in Author(o) && '\n' !in now ==>
              ReadMdx(doc) == Some(Front(Title(o), Author(o), now, md))
  {
    MdxRead(Title(o), Author(o), now, md);
    Join(FrontMatter(Title(o), Author(o), now) + [md], '\n') + "\n"
  }

  /** What a reader of the front matter gets back. */
  datatype Front = Front(title: Str, author: Str, date: Str, body: Str)

  /** The text between `prefix` and a closing `"` at the end of a line, if it has that shape. */
  function Quoted(line: Str, prefix: Str): Option<Str> {
    if prefix <= line && |line| >= |prefix| + 1 && line[|line| - 1] == '"' then
      Some(line[|prefix|..|line| - 1])
    else None
  }

  /** Reads an MDX file back into its front matter and body. */
  function ReadMdx(doc: Str): Option<Front> {
    var ls := Split(doc, '\n');
    if |ls| < 7 || ls[0] != "---" || ls[4] != "---" || ls[5] != "" || ls[|ls| - 1] != "" then None
    else
      var t := Quoted(ls[1], "title: \"");
      var a := if ls[2] == [] then Some([]) else Quoted(ls[2], "author: \"");
      var d := Quoted(ls[3], "date: \"");
      if t.None? || a.None? || d.None? then None
      else Some(Front(t.value, a.value, d.value, Join(ls[6..|ls| - 1], '\n')))
  }

  lemma QuotedRead(prefix: Str, v: Str)
    ensures Quoted(prefix + v + "\"", prefix) == Some(v)
  {
    var line := prefix + v + "\"";
    assert line[..|prefix|] == prefix;
    assert line[|prefix|..|line| - 1] == v;
  }

  /** Lines free of newlines, joined, followed by the markdown and a newline, split back into those lines. */
  lemma FrontLines(fm: seq<Str>, md: Str)
    requires |fm| >= 1 && forall i :: 0 <= i < |fm| ==> '\n' !in fm[i]
    ensures Split(Join(fm + [md], '\n') + "\n", '\n') == fm + Split(md, '\n') + [""]
  {
    var head := Join(fm, '\n');
    var doc := Join(fm + [md], '\n') + "\n";
    assert doc == head + ['\n'] + (md + ['\n'] + []) by {
      JoinAppend(fm, md, '\n');
    }
    assert Split(head, '\n') == fm by {
      SplitJoin(fm, '\n');
    }
    assert Split(md + ['\n'] + [], '\n') == Split(md, '\n') + [""] by {
      SplitConcat(md, [], '\n');
      SplitNone([], '\n');
    }
    SplitConcat(head, md + ['\n'] + [], '\n');
  }

  /** Front matter free of newlines, with the markdown, splits and reads back as its parts. */
  lemma MdxRead(title: Str, author: Str, now: Str, md: Str)
    ensures var doc := Join(FrontMatter(title, author, now) + [md], '\n') + "\n";
            '\n' !in title && '\n' !in author && '\n' !in now ==>
              && Split(doc, '\n') == FrontMatter(title, author, now) + Split(md, '\n') + [""]
              && ReadMdx(doc) == Some(Front(title, author, now, md))
  {
    if '\n' !in title && '\n' !in author && '\n' !in now {
      var doc := Join(FrontMatter(title, author, now) + [md], '\n') + "\n";
      FrontLines(FrontMatter(title, author, now), md);
      ReadLines(doc, title, author, now, md);
    }
  }

  /** A document whose lines are the front matter, then the markdown's lines, reads back as those fields. */
  lemma ReadLines(doc: Str, title: Str, author: Str, now: Str, md: Str)
    requires Split(doc, '\n') == FrontMatter(title, author, now) + Split(md, '\n') + [""]
    ensures ReadMdx(doc) == Some(Front(title, author, now, md))
  {
    var fm := FrontMatter(title, author, now);
    var body := Split(md, '\n');
    var ls := fm + body + [""];
    assert ls[6..|ls| - 1] == body;
    JoinSplit(md, '\n');
    assert ls[0] == "---" && ls[4] == "---" && ls[5] == "" && ls[|ls| - 1] == "";
    assert Quoted(ls[1], "title: \"") == Some(title) by {
      QuotedRead("title: \"", title);
    }
    assert Quoted(ls[3], "date: \"") == Some(now) by {
      QuotedRead("date: \"", now);
    }
    if author != [] {
      assert Quoted(ls[2], "author: \"") == Some(author) by {
        QuotedRead("author: \"", author);
      }
      assert ls[2] != [];
    }
  }

}
