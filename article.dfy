/**
 * The `Article` class: a Jekyll post (an optional YAML header fenced by `---`
 * lines, then Markdown or HTML) loaded into metadata and content, and
 * formatted as one text block for Pandoc.
 */
module JekyllEbook {
  import opened Wrappers
  import FrontMatter
  import Highlight

  /** Header values restricted to strings and `nil`. */
  type Metadata = map<string, Option<string>>

  /** What `YAML.load` does with a header: raise with a message, or load a document (`nil` for a null document). */
  datatype YamlResult = Failed(message: string) | Parsed(document: Option<Metadata>)

  /** Why `format_article` raises instead of returning text. */
  datatype FormatError =
    | NoMetadata  // `metadata` is nil, so `metadata['title']` raises
    | NoTitle     // `metadata['title']` is nil, so `"# " + nil` raises

  // ---------------------------------------------------------------------------
  // Field list

  /** `s` with every `x` dropped, the rest in order. */
  function Without<T(==)>(s: seq<T>, x: T): (r: seq<T>)
    ensures |r| <= |s|
  {
    if s == [] then []
    else (if s[0] == x then [] else [s[0]]) + Without(s[1..], x)
  }

  /** Dropping distributes over concatenation, so the kept entries stay in their order. */
  lemma {:induction false} WithoutAppend<T>(a: seq<T>, b: seq<T>, x: T)
    ensures Without(a + b, x) == Without(a, x) + Without(b, x)
  {
    if a != [] {
      assert (a + b)[1..] == a[1..] + b;
      WithoutAppend(a[1..], b, x);
    } else {
      assert a + b == b;
    }
  }

  /** Every entry other than `x` is kept as often as it occurred, and no `x` is. */
  lemma {:induction false} WithoutMultiset<T>(s: seq<T>, x: T)
    ensures multiset(Without(s, x)) == multiset(s)[x := 0]
  {
    if s != [] {
      WithoutMultiset(s[1..], x);
      assert s == [s[0]] + s[1..];
      assert multiset(s) == multiset{s[0]} + multiset(s[1..]);
    }
  }

  /** Exactly the entries other than `x` remain. */
  lemma {:induction false} WithoutMembers<T>(s: seq<T>, x: T)
    ensures forall y :: y in Without(s, x) <==> y in s && y != x
  {
    WithoutMultiset(s, x);
    forall y
      ensures y in Without(s, x) <==> y in s && y != x
    {
      assert y in Without(s, x) <==> multiset(Without(s, x))[y] > 0;
      assert y in s <==> multiset(s)[y] > 0;
    }
  }

  /** A list without `x` is left as it is, so dropping twice changes nothing. */
  lemma {:induction false} WithoutAbsent<T>(s: seq<T>, x: T)
    requires x !in s
    ensures Without(s, x) == s
  {
    if s != [] {
      assert s[0] in s;
      assert forall y :: y in s[1..] ==> y in s;
      WithoutAbsent(s[1..], x);
      assert s == [s[0]] + s[1..];
    }
  }

  /**
   * `required_fields.delete_if { |f| f == "title" }`: compacts the caller's
   * array in place and returns its new length.
   */
  method DeleteTitle(a: array<string>) returns (n: nat)
    modifies a
    ensures n <= a.Length
    ensures a[..n] == Without(old(a[..]), "title")
  {
    ghost var before := a[..];
    n := 0;
    var i := 0;
    while i < a.Length
      invariant n <= i <= a.Length
      invariant a[..n] == Without(before[..i], "title")
      invariant a[i..] == before[i..]
    {
      assert a[i] == before[i];
      WithoutAppend(before[..i], [before[i]], "title");
      assert before[..i + 1] == before[..i] + [before[i]];
      if a[i] != "title" {
        a[n] := a[i];
        n := n + 1;
      }
      i := i + 1;
    }
    assert before[..a.Length] == before;
  }

  // ---------------------------------------------------------------------------
  // Output pieces

  /** Ruby's `metadata[f]`: nil both for a missing key and for a nil value. */
  function Lookup(md: Metadata, f: string): Option<string> {
    if f in md then md[f] else None
  }

  function Heading(title: string): string {
    "# " + title + "\n\n"
  }

  function Paragraph(f: string, v: string): string {
    "<p class='" + f + "'>" + v + "</p>\n\n"
  }

  /** One paragraph per field with a non-nil value, in list order. */
  function Paragraphs(md: Metadata, fields: seq<string>): (r: seq<string>)
    ensures |r| <= |fields|
  {
    if fields == [] then []
    else
      (match Lookup(md, fields[0]) case Some(v) => [Paragraph(fields[0], v)] case None => [])
      + Paragraphs(md, fields[1..])
  }

  /** The number of fields whose value is not nil. */
  function PresentCount(md: Metadata, fields: seq<string>): nat {
    if fields == [] then 0
    else (if Lookup(md, fields[0]).Some? then 1 else 0) + PresentCount(md, fields[1..])
  }

  /** The array `out` that `format_article` joins. */
  function Pieces(title: string, md: Metadata, fields: seq<string>, content: string): seq<string> {
    [Heading(title)] + Paragraphs(md, fields) + [Highlight.Substitute(content)]
  }

  /** Ruby's `Array#join(sep)`. */
  function Join(ps: seq<string>, sep: string): string {
    if ps == [] then ""
    else if |ps| == 1 then ps[0]
    else ps[0] + sep + Join(ps[1..], sep)
  }

  /** Each piece followed by the separator. */
  function Terminated(ps: seq<string>, sep: string): string {
    if ps == [] then "" else ps[0] + sep + Terminated(ps[1..], sep)
  }

  lemma {:induction false} ParagraphsAppend(md: Metadata, a: seq<string>, b: seq<string>)
    ensures Paragraphs(md, a + b) == Paragraphs(md, a) + Paragraphs(md, b)
  {
    if a != [] {
      assert (a + b)[1..] == a[1..] + b;
      ParagraphsAppend(md, a[1..], b);
    } else {
      assert a + b == b;
    }
  }

  /** There is one paragraph per field whose value is not nil. */
  lemma {:induction false} ParagraphsCount(md: Metadata, fields: seq<string>)
    ensures |Paragraphs(md, fields)| == PresentCount(md, fields)
  {
    if fields != [] {
      ParagraphsCount(md, fields[1..]);
    }
  }

  /** The field at `i` contributes its paragraph, or nothing when its value is nil, between those of the fields before and after it. */
  lemma ParagraphAt(md: Metadata, fields: seq<string>, i: nat)
    requires i < |fields|
    ensures Lookup(md, fields[i]).None? ==>
      Paragraphs(md, fields) == Paragraphs(md, fields[..i]) + Paragraphs(md, fields[i + 1..])
    ensures Lookup(md, fields[i]).Some? ==>
      Paragraphs(md, fields) ==
        Paragraphs(md, fields[..i]) + [Paragraph(fields[i], Lookup(md, fields[i]).value)] + Paragraphs(md, fields[i + 1..])
  {
    assert fields == fields[..i] + ([fields[i]] + fields[i + 1..]);
    ParagraphsAppend(md, fields[..i], [fields[i]] + fields[i + 1..]);
    ParagraphsAppend(md, [fields[i]], fields[i + 1..]);
    assert [fields[i]][1..] == [];
  }

  /** Joining a heading, middle pieces and a body with `sep` puts `sep` after every piece but the last. */
  lemma {:induction false} JoinAsTerminated(ps: seq<string>, last: string, sep: string)
    ensures Join(ps + [last], sep) == Terminated(ps, sep) + last
  {
    if ps != [] {
      assert (ps + [last])[1..] == ps[1..] + [last];
      JoinAsTerminated(ps[1..], last, sep);
    } else {
      assert ps + [last] == [last];
    }
  }

  /**
   * The formatted text is the heading, a line feed, every paragraph followed
   * by a line feed, then the substituted content; it has 2 + PresentCount pieces.
   */
  lemma RenderedLayout(title: string, md: Metadata, fields: seq<string>, content: string)
    ensures |Pieces(title, md, fields, content)| == 2 + PresentCount(md, fields)
    ensures Pieces(title, md, fields, content)[0] == "# " + title + "\n\n"
    ensures Join(Pieces(title, md, fields, content), "\n") ==
      "# " + title + "\n\n" + "\n" + Terminated(Paragraphs(md, fields), "\n") + Highlight.Substitute(content)
  {
    ParagraphsCount(md, fields);
    var ps := Pieces(title, md, fields, content);
    assert ps == ([Heading(title)] + Paragraphs(md, fields)) + [Highlight.Substitute(content)];
    JoinAsTerminated([Heading(title)] + Paragraphs(md, fields), Highlight.Substitute(content), "\n");
    assert ([Heading(title)] + Paragraphs(md, fields))[1..] == Paragraphs(md, fields);
  }

  // ---------------------------------------------------------------------------
  // The class

  /** The diagnostic line of the rescue clause. */
  function YamlMessage(filename: string, message: string): string {
    "YAML exception reading " + filename + ": " + message
  }

  class Article {
    var filename: string
    var metadata: Option<Metadata>
    var content: string
    var requiredFields: seq<string>
    /** The lines `read_file` writes with `puts`. */
    var diagnostics: seq<string>

    /**
     * Filters `fields` in place, then reads the post. `text` is what
     * `File.read(filename)` returns and `yaml` stands for `YAML.load`.
     */
    constructor (filename: string, fields: array<string>, text: string, yaml: string -> YamlResult)
      modifies fields
      ensures this.filename == filename
      ensures requiredFields == Without(old(fields[..]), "title")
      ensures |requiredFields| <= fields.Length && fields[..|requiredFields|] == requiredFields
      ensures "title" !in requiredFields
      ensures FrontMatter.FindHeader(text).None? ==>
        metadata == None && content == text && diagnostics == []
      ensures FrontMatter.FindHeader(text).Some? ==>
        var s := FrontMatter.FindHeader(text).value;
        match yaml(text[s.start..s.close])
        case Failed(msg) => metadata == None && content == text && diagnostics == [YamlMessage(filename, msg)]
        case Parsed(doc) => metadata == doc && content == text[s.end..] && diagnostics == []
    {
      var n := DeleteTitle(fields);
      requiredFields := fields[..n];
      WithoutMembers(old(fields[..]), "title");
      this.filename := filename;
      metadata := None;
      content := "";
      diagnostics := [];
      new;
      ReadFile(text, yaml);
    }

    /** `read_file`: `content` is the whole text unless the header is found and loads. */
    method ReadFile(text: string, yaml: string -> YamlResult)
      modifies this
      ensures filename == old(filename) && requiredFields == old(requiredFields)
      ensures FrontMatter.FindHeader(text).None? ==>
        metadata == old(metadata) && content == text && diagnostics == old(diagnostics)
      ensures FrontMatter.FindHeader(text).Some? ==>
        var s := FrontMatter.FindHeader(text).value;
        match yaml(text[s.start..s.close])
        case Failed(msg) =>
          metadata == old(metadata) && content == text && diagnostics == old(diagnostics) + [YamlMessage(filename, msg)]
        case Parsed(doc) =>
          metadata == doc && content == text[s.end..] && diagnostics == old(diagnostics)
    {
      content := text;
      var found := FrontMatter.FindHeader(content);
      if found.Some? {
        var s := found.value;
        var loaded := yaml(content[s.start..s.close]);
        match loaded
        case Failed(msg) =>
          diagnostics := diagnostics + [YamlMessage(filename, msg)];
        case Parsed(doc) =>
          metadata := doc;
          content := content[s.end..];
      }
    }

    /** `format_article`: raises without metadata or title, else joins the pieces with line feeds. */
    method Format() returns (r: Result<string, FormatError>)
      ensures metadata.None? ==> r == Failure(NoMetadata)
      ensures metadata.Some? && Lookup(metadata.value, "title").None? ==> r == Failure(NoTitle)
      ensures r.Success? <==> metadata.Some? && Lookup(metadata.value, "title").Some?
      ensures r.Success? ==>
        r.value == Join(Pieces(Lookup(metadata.value, "title").value, metadata.value, requiredFields, content), "\n")
    {
      if metadata.None? {
        return Failure(NoMetadata);
      }
      var md := metadata.value;
      var title := Lookup(md, "title");
      if title.None? {
        return Failure(NoTitle);
      }
      var out := [Heading(title.value)];
      var i := 0;
      while i < |requiredFields|
        invariant 0 <= i <= |requiredFields|
        invariant out == [Heading(title.value)] + Paragraphs(md, requiredFields[..i])
      {
        var f := requiredFields[i];
        ParagraphsAppend(md, requiredFields[..i], [f]);
        assert requiredFields[..i + 1] == requiredFields[..i] + [f];
        var v := Lookup(md, f);
        if v.Some? {
          out := out + [Paragraph(f, v.value)];
        }
        i := i + 1;
      }
      assert requiredFields[..i] == requiredFields;
      out := out + [Highlight.Substitute(content)];
      r := Success(Join(out, "\n"));
    }
  }

  /** The formatted text of a post with title `Hello`, author `Jane` and body `Some **body** text.\n`. */
  lemma HelloRendering(md: Metadata, body: string)
    requires md == map["title" := Some("Hello"), "author" := Some("Jane")]
    requires body == "Some **body** text.\n"
    ensures Join(Pieces("Hello", md, ["author"], body), "\n") ==
      "# Hello\n\n" + "\n" + ("<p class='author'>Jane</p>\n\n" + "\n" + "Some **body** text.\n")
  {
    Highlight.BraceFreeNoMarker(body);
    Highlight.UnchangedIffNoMarker(body);
    var heading, para := Heading("Hello"), Paragraph("author", "Jane");
    assert heading == "# Hello\n\n";
    assert para == "<p class='author'>Jane</p>\n\n";
    assert Lookup(md, "author") == Some("Jane");
    assert Paragraphs(md, ["author"]) == [para];
    var ps := Pieces("Hello", md, ["author"], body);
    assert ps == [heading, para, body];
    assert ps[1..] == [para, body] && [para, body][1..] == [body];
    assert Join([body], "\n") == body;
    assert Join([para, body], "\n") == para + "\n" + body;
    assert Join(ps, "\n") == heading + "\n" + (para + "\n" + body);
  }

  /** The post `---\ntitle: Hello\nauthor: Jane\n---\nSome **body** text.\n`, formatted with the single field `author`. */
  method HelloExample() returns (r: Result<string, FormatError>)
    ensures r == Success("# Hello\n\n" + "\n" + ("<p class='author'>Jane</p>\n\n" + "\n" + "Some **body** text.\n"))
  {
    var header := "title: Hello\nauthor: Jane\n";
    var body := "Some **body** text.\n";
    var text := "---\n" + header + "---\n" + body;
    FrontMatter.DashFreeHeader(header);
    FrontMatter.PlainPost(header, body);
    var md: Metadata := map["title" := Some("Hello"), "author" := Some("Jane")];
    var fields := new string[1]["author"];
    var article := new Article("hello.md", fields, text, h => if h == "---\n" + header then Parsed(Some(md)) else Failed("unexpected"));
    assert article.metadata == Some(md) && article.content == body;
    assert article.requiredFields == ["author"];
    HelloRendering(md, body);
    r := article.Format();
  }
}
