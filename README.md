# jekyll-ebook `Article` in Dafny

This project models the `Article` class of jekyll-ebook. The class loads one
Jekyll post or page and turns it into a text block for Pandoc. A post is an
optional YAML header fenced by `---` lines, followed by Markdown or HTML. The
class does three things:

1. The constructor drops every `"title"` entry from the caller's list of
   required fields. It does this in place, with `delete_if`.
2. `read_file` splits the text with the regular expression
   `/^(---\s*\n.*?\n?)^(---\s*$\n?)/m`. When the header is found and YAML loads
   it, the header becomes `metadata` and the text after the match becomes
   `content`. In every other case `content` is the whole file.
3. `format_article` builds a list of pieces and joins them with `"\n"`:
   - a `# title` heading;
   - one `<p class='field'>value</p>` paragraph per required field whose value
     is not nil;
   - the content, with `{% highlight text %}` replaced by `<pre>` and
     `{% endhighlight %}` replaced by `</pre>`.

Files:
- `wrappers.dfy`: `Option` and `Result`.
- `front_matter.dfy`: the regular expression, written as an explicit search for
  delimiter lines (pure functions and lemmas).
- `highlight.dfy`: the `gsub` substitution (a pure function and lemmas).
- `article.dfy`: the class. Its fields are `filename`, `metadata`, `content`,
  `requiredFields` and `diagnostics`. The constructor compacts the field array
  in place. `ReadFile` is the header split, and `Format` builds the pieces in a
  loop.

How the regular expression is read. In Ruby `^` matches at any line start,
`\s` is one of space, tab, line feed, vertical tab, form feed and carriage
return, and `/m` lets `.` match line feeds.
- The match starts at the first *opening* line. This is a line that starts
  with `---`, then has only blanks, then a line feed. It can be anywhere in the
  file, and the text before it is dropped.
- The lazy `.*?` stops at the first *closing* line after the opening. A closing
  line starts with `---`, then has only blanks, then a line feed or the end of
  the text. Backtracking inside the opening line's `\s*` cannot move this
  point, because that stretch holds only whitespace and no `-`.
- The greedy `\s*` of the closing line runs over all whitespace, line feeds
  included. It then gives back characters until `$` holds, and `\n?` takes that
  line feed. So blank lines after the closing `---` are swallowed.
- `FrontMatter.OpeningAgrees`, `ClosingAgrees` and `ClosingStopIsGreedy` relate
  the scanning definitions to the regex-level ones (`OpeningLine`,
  `ClosingLine`, `SpaceStop`). `FindHeader` is proved to return the leftmost
  match in exactly this sense.

Some behaviour of the code differs from what a reader might expect. The model
follows the code:
- The header may start mid-file, not only at the top.
- When YAML raises, `content` stays the full file text. This is because the
  assignment of `content` comes after `YAML.load`.
- `metadata` is then left as it was (nil after construction), not empty.
- The heading and every paragraph already end with `"\n\n"`, and the join adds
  one more `"\n"`. So
  sections are separated by three line feeds, not by a single blank line.
  `JekyllEbook.HelloExample` shows this on the post
  `---\ntitle: Hello\nauthor: Jane\n---\nSome **body** text.\n` (metadata: a title and an author).
- The paragraph's class is the field's name (`<p class='author'>`).

## Model

| member | source | states |
|---|---|---|
| JekyllEbook.DeleteTitle | lib/jekyll-ebook/article.rb:18 | `delete_if` compacts the caller's array in place: its first `n` cells become the input with every `"title"` removed, in order |
| JekyllEbook.WithoutAppend | lib/jekyll-ebook/article.rb:18 | the filter distributes over concatenation, so kept entries keep their relative order |
| JekyllEbook.WithoutMultiset | lib/jekyll-ebook/article.rb:18 | each entry other than `"title"` is kept exactly as often as it occurred, and no `"title"` remains |
| JekyllEbook.WithoutMembers | lib/jekyll-ebook/article.rb:18 | a field is in the filtered list iff it is in the input and is not `"title"` |
| JekyllEbook.WithoutAbsent | lib/jekyll-ebook/article.rb:18 | a list without `"title"` is left unchanged, so filtering twice changes nothing |
| JekyllEbook.Article.constructor | lib/jekyll-ebook/article.rb:17-21 | `requiredFields` is the filtered input and holds no `"title"`; the caller's array holds it in its first cells; `metadata`, `content` and the diagnostics are as `read_file` leaves them on a fresh object (nil metadata and the whole text when there is no header or YAML raises) |
| JekyllEbook.Article.ReadFile | lib/jekyll-ebook/article.rb:24-40 | no match: `content` is the whole text and `metadata` is unchanged; YAML raises: the same, plus one message naming the file and the error; YAML loads: `metadata` is the loaded document and `content` is the text after the match |
| FrontMatter.FindOpening | lib/jekyll-ebook/article.rb:32 | returns the first opening delimiter line at or after `i`, or None when there is none |
| FrontMatter.FindClosing | lib/jekyll-ebook/article.rb:32 | returns the first closing delimiter line at or after `i`, or None when there is none |
| FrontMatter.FindHeader | lib/jekyll-ebook/article.rb:32 | a result is the leftmost match: the first opening line, the first closing line after it, and the greedy end of the closing line; None iff no opening line is followed by a closing line |
| FrontMatter.OpeningAgrees | lib/jekyll-ebook/article.rb:32 | the scanned opening line is exactly where `^---\s*\n` can match |
| FrontMatter.ClosingAgrees | lib/jekyll-ebook/article.rb:32 | the scanned closing line is exactly where `^---\s*$` can match |
| FrontMatter.ClosingStopIsGreedy | lib/jekyll-ebook/article.rb:32 | the closing line's `\s*$` stops at the last possible place, which the greedy star tries first |
| FrontMatter.LeftmostMatchUnique | lib/jekyll-ebook/article.rb:32 | the leftmost-match conditions determine the split uniquely |
| FrontMatter.ClosingDelimiterSpace | lib/jekyll-ebook/article.rb:32 | after its `---`, the matched closing delimiter is whitespace only and ends at a line feed or at the end of the text |
| FrontMatter.MatchParts | lib/jekyll-ebook/article.rb:32-34 | the header starts with `---` at a line start and ends with a line feed; the closing delimiter is `---` plus whitespace; pre-match + header + delimiter + content is the whole text, so content is a suffix |
| FrontMatter.PlainPost | lib/jekyll-ebook/article.rb:32-34 | for `"---\n" + h + "---\n" + b`, where `h` is empty or ends with a line feed, no line of `h` starts with `---`, and `b` does not start with whitespace, the header is `"---\n" + h` and the content is exactly `b` |
| Highlight.Substitute | lib/jekyll-ebook/article.rb:56-58 | the substitution never lengthens the text |
| Highlight.PlainPrefixCopied | lib/jekyll-ebook/article.rb:56-58 | text in which no marker begins is copied verbatim, including other `{% ... %}` tags |
| Highlight.FirstMarkerReplaced | lib/jekyll-ebook/article.rb:56-58 | the first marker is replaced by its `<pre>` or `</pre>`, and the scan goes on after it |
| Highlight.UnchangedIffNoMarker | lib/jekyll-ebook/article.rb:56-58 | the content passes through unchanged iff it holds neither marker |
| Highlight.ShorterWithMarker | lib/jekyll-ebook/article.rb:56-58 | a text holding a marker gets strictly shorter |
| Highlight.NoMarkerRemains | lib/jekyll-ebook/article.rb:56-58 | no marker occurs anywhere in the output |
| JekyllEbook.Article.Format | lib/jekyll-ebook/article.rb:44-64 | fails with NoMetadata when `metadata` is nil and with NoTitle when the title is nil or missing (and only then); otherwise the result is the pieces joined with `"\n"` |
| JekyllEbook.ParagraphsCount | lib/jekyll-ebook/article.rb:52-54 | there is one paragraph per required field whose value is not nil |
| JekyllEbook.ParagraphAt | lib/jekyll-ebook/article.rb:52-54 | the field at each position contributes `<p class='f'>v</p>\n\n` when its value is non-nil and nothing otherwise, between the paragraphs of the fields before and after it |
| JekyllEbook.JoinAsTerminated | lib/jekyll-ebook/article.rb:62 | joining puts the separator after every piece but the last |
| JekyllEbook.RenderedLayout | lib/jekyll-ebook/article.rb:47-62 | there are 2 + (number of present fields) pieces; the first is `"# " + title + "\n\n"`; the output is the heading, `"\n"`, each paragraph followed by `"\n"`, then the substituted content |
| JekyllEbook.HelloRendering | lib/jekyll-ebook/article.rb:44-64 | the metadata `title: Hello`, `author: Jane` and the body `Some **body** text.\n` format to the heading, field paragraph and body separated by three line feeds |
| JekyllEbook.HelloExample | lib/jekyll-ebook/article.rb:17-64 | constructing an article from the post `---\ntitle: Hello\nauthor: Jane\n---\nSome **body** text.\n` with the field `author` and formatting it gives that exact text |

## Left out

- Reading the file at line 26 is outside the model. The file's text is a parameter of the constructor and of `ReadFile`, and a failure to read the file is not modelled.
- `YAML.load` at line 33 is a parameter `yaml: string -> YamlResult`. It either fails with a message or loads a document, which may be nil. The YAML grammar itself is not modelled.
- Metadata values are strings or nil. Dates, numbers, lists and nested maps make `String#+` raise on lines 49 and 53; the model leaves those errors out. A header that loads to a scalar or a list instead of a mapping is not modelled either.
- `puts` at line 37 appends its line to the `diagnostics` field instead of writing to standard output.
- Other exceptions that the rescue clause would catch are not modelled. For example, the regex match raises on text that is not valid in its encoding.
- JekyllEbook.DeleteTitle: a Dafny array cannot shrink. The method returns the new length, and the cells after it keep leftover values.
- JekyllEbook.Article.constructor: `requiredFields` is a copy of the compacted array's prefix. In Ruby, `@required_fields` is the caller's own array object, so later changes by the caller would show through. That aliasing is not modelled.
- The `attr_accessor` getters and setters are plain public fields.
- Characters are Unicode code points. Encodings and invalid byte sequences are not modelled.
