# WordPress-to-ikiwiki import, modelled in Dafny

This project models the core of `ikiwiki-wordpress-import.py`, a converter
that reads a WordPress export and writes a git fast-import stream. Each
published post becomes an ikiwiki `.mdwn` page in one commit, and each
approved comment becomes a `comment_<i>._comment` file beside it. The
model covers the body of `main`:

- the draft filter;
- the stub, which is the last segment of the GUID or a folding of the title;
- the page text: the escaped title meta, the date meta, the body with CRLF
  turned into LF, and one `[[!tag  x]]` line per category with a nicename;
- the `html_replace` entity encoding;
- the `commit` / `committer` / `data` / `M 644 inline` blocks;
- the comment records, their numbering and their paths.

Everything is a pure function over immutable datatypes. Strings are
sequences of characters. Text from the export is Unicode, like the
`unicode` values the script reads from it. The command-line arguments are
Python 2 byte strings, and each byte is one character of the model. Where
the two meet, in the path joins of lines 95 and 123, Python 2 decodes the
byte string as ASCII (`Paths.JoinDecodes`).

Modules:

- `Text`: character classes, `%d` numerals, `unicode.replace`, `unicode.lower`, line splitting.
- `Export`: the already-extracted items, comments and categories, and the
  configuration (`name`, `email`, `subdir`, `branch`) read from the command line.
- `Stub`: the GUID pattern `.*\/(.+)\/$` with Python's `re.match` semantics,
  and the title fallback.
- `Document`: quote escaping, newline normalisation, the tag block and the page text.
- `Entities`: `html_replace` and the standard `replace` error handler.
- `Dates`: `datetime.strptime(s, '%Y-%m-%d %H:%M:%S')` as Python 2.7 parses it, and the
  `strftime('%Y-%m-%dT%H:%M:%SZ')` rewrite.
- `Paths`: `os.path.join` on POSIX.
- `FastImport`: the commands, their text in the stream, and a reader for that text.
- `Comments`: the comment record, its path and the numbering loop.
- `Importer`: one post, and the loop over all items.

The script stops with an exception at the first of these:
- a post whose page holds a character without an entity name;
- a non-ASCII directory argument joined with a relative page name, after
  that post's commit is printed;
- an approved comment whose date `strptime` rejects. The model returns the commands printed before the
stop together with the failure (`Emission`).

The model follows the code:

- A stub taken from the GUID is not sanitised.
- The title fallback does not merge runs of hyphens and may be empty.
- Only CRLF is turned into LF; a lone CR stays.
- A title quote becomes `\"` in both the meta line and the comment subject.
- The comment author is written as `claimedauthor=`.
- There are no parent pages, attachments, redirects or default directory.

## Model

| member | source | states |
|---|---|---|
| Importer.PostCommands | ikiwiki-wordpress-import.py:50-52 | an item whose status is not exactly `publish` produces no commands and no failure; a published page with a character lacking an entity produces no commands and the Unencodable failure |
| Importer.ImportSkipsDrafts | ikiwiki-wordpress-import.py:50-52 | the run over all items equals the run over the published items alone, so drafts leave no trace in the stream |
| Importer.Published | ikiwiki-wordpress-import.py:50-52 | an item is kept exactly when it is in the export and published |
| Importer.PublishedConcat | ikiwiki-wordpress-import.py:50-52 | the published items of a concatenation are those of each part, in export order |
| Importer.PostCommandsShape | ikiwiki-wordpress-import.py:90-101 | a published post that encodes yields its commit; a non-ASCII directory with a page name not starting with `/` then stops the run with the decode failure, and otherwise the page file at `PostPath(subdir, stub)` follows, whose data header equals the length of the all-ASCII encoded page, then the files of its approved comments |
| Importer.PostCommandsFailIff | ikiwiki-wordpress-import.py:90-107 | a post stops the run exactly when it is published and its page cannot be entity-encoded, or its directory is non-ASCII and the page name does not start with `/`, or an approved comment has a date `strptime` rejects |
| Importer.ImportFailsIff | ikiwiki-wordpress-import.py:50-107 | the run fails exactly when some item fails |
| Importer.ImportStreamReadsBack | ikiwiki-wordpress-import.py:91-126 | with a one-line configuration, the character-level reader reads the printed stream back as exactly the emitted commands, so every `data` header frames its payload when counted in characters |
| Importer.ImportPayloadsAscii | ikiwiki-wordpress-import.py:93-126 | when every title and GUID is ASCII, every payload of the run is ASCII, so its character count is also its byte count |
| Importer.CommitMessageAscii | ikiwiki-wordpress-import.py:61 | the commit message is ASCII when the title and GUID are |
| Importer.ImportSafe | ikiwiki-wordpress-import.py:91-126 | with a one-line configuration, every emitted command has a data header equal to its payload length and one-line header fields |
| Importer.PostCommandsSafe | ikiwiki-wordpress-import.py:91-126 | the same for the commands of one post |
| Importer.CommentFilesSafe | ikiwiki-wordpress-import.py:123-126 | for a one-line directory and stub, the comment files of a post are framed and sit on one-line paths |
| Importer.ImportCommits | ikiwiki-wordpress-import.py:50-94 | a run that completes makes exactly one commit per published post, in export order |
| Importer.PostCommits | ikiwiki-wordpress-import.py:52-91 | one post contributes its commit when it prints anything, and no commit otherwise |
| Importer.PostCommitReadsBack | ikiwiki-wordpress-import.py:91-94 | when the branch, name and email are one line, the name has no `<` and the email no `>`, the printed commit block reads back as a commit to the configured branch, by the configured name and email, at the post's timestamp, whose data header is the length of the commit message it carries, leaving what follows |
| Importer.PostFileReadsBack | ikiwiki-wordpress-import.py:95-97 | when the directory and stub are one line, the printed page block reads back as a file change at `subdir` joined with `stub.mdwn`, whose data header is the length of the page it carries, leaving what follows |
| Importer.CommentJoinDecodes | ikiwiki-wordpress-import.py:95-123 | the directory joins with the comment's stub exactly when it joins with the page name, so once line 95 has succeeded, line 123 cannot raise |
| Importer.PostPath | ikiwiki-wordpress-import.py:95 | the page path ends with `stub + ".mdwn"` |
| Importer.PostPathShape | ikiwiki-wordpress-import.py:95 | for a non-empty directory not ending in `/` and a non-empty stub not starting with `/`, the page is `subdir/stub.mdwn` |
| Importer.Commits | ikiwiki-wordpress-import.py:91 | a command is kept exactly when it is a commit of the stream |
| Importer.CommitsConcat | ikiwiki-wordpress-import.py:91 | the commits of a concatenation are the commits of each part, in order |
| Export.ConfigOfArgvDefault | ikiwiki-wordpress-import.py:44 | leaving the branch out is the same as naming `master`, and every configuration can be given on the command line |
| Stub.GuidStub | ikiwiki-wordpress-import.py:48-56 | a captured stub is non-empty and has no newline, the GUID ends with `/stub/` (or `/stub/` and a newline), and only the last character of the stub can be a slash |
| Stub.GuidStubMatchesIff | ikiwiki-wordpress-import.py:48-55 | a stub is found exactly when the pattern has some match on the GUID |
| Stub.GuidStubIsGreedyGroup | ikiwiki-wordpress-import.py:48-56 | the stub is the group of the match that the greedy `.*` selects: every match ends at the same slash and starts no later |
| Stub.GuidStubCapture | ikiwiki-wordpress-import.py:48-56 | the stub is the text between the two slashes of a match |
| Stub.CaptureIsFound | ikiwiki-wordpress-import.py:48-55 | every match of the pattern makes the stub exist, closes at the final slash and opens no later than the stub's slash |
| Stub.GuidStubExample | ikiwiki-wordpress-import.py:54-56 | the GUID `http://example.com/hello-world/` gives the stub `hello-world` |
| Stub.FallbackStub | ikiwiki-wordpress-import.py:59 | the fallback has the title's length; a word character is kept and lower-cased, every other character becomes `-`, and only `[a-z0-9_-]` remains |
| Stub.PostStub | ikiwiki-wordpress-import.py:54-59 | the stub is the GUID's group when the pattern matches and the fallback otherwise, and has no newline |
| Document.EscapeQuotesLength | ikiwiki-wordpress-import.py:63 | escaping adds one character per `"` and never yields a leading `"` |
| Document.UnescapeEscapeQuotes | ikiwiki-wordpress-import.py:63 | undoing the escape gives back the title |
| Document.EscapedQuotesArePreceded | ikiwiki-wordpress-import.py:63 | every `"` in the escaped title is preceded by a backslash |
| Document.EscapeQuotesConcat | ikiwiki-wordpress-import.py:63 | the escape of a concatenation is the concatenation of the escapes |
| Document.EscapeQuotesNoQuote | ikiwiki-wordpress-import.py:63 | a title without `"` is left as it is |
| Document.EscapeQuotesStep | ikiwiki-wordpress-import.py:63 | the escape works character by character, `"` becoming `\"` |
| Document.EscapeNoNewline | ikiwiki-wordpress-import.py:63 | escaping introduces no newline |
| Document.NormaliseNewlinesDropsCr | ikiwiki-wordpress-import.py:65 | turning CRLF into LF is the same as deleting each CR that directly precedes an LF |
| Document.NormaliseNewlinesExamples | ikiwiki-wordpress-import.py:65 | `\r\r\n` becomes `\r\n`, a lone CR stays, and CRLF pairs become LF |
| Document.Tagged | ikiwiki-wordpress-import.py:78 | a category is tagged exactly when it has a nicename |
| Document.TaggedConcat | ikiwiki-wordpress-import.py:78-79 | the tagged categories of a concatenation are those of each part, in document order |
| Document.TagNameChars | ikiwiki-wordpress-import.py:84 | a tag name has the length of the category text; a space becomes `-` and every other character is lower-cased |
| Document.ReadTagLineStep | ikiwiki-wordpress-import.py:84 | for a one-line name followed by nothing or a line feed, reading a tag line gives its name and continues with the rest |
| Document.ReadTagLinesRoundTrip | ikiwiki-wordpress-import.py:81-84 | when every tag name is one line, reading the tag lines back gives the tag names in order |
| Document.TagBlockRoundTrip | ikiwiki-wordpress-import.py:78-84 | when every tagged category's name is one line, reading the tag block back gives the names of the nicename categories in document order, after exactly one blank line; the block is empty exactly when no category has a nicename |
| Document.PageTextReadBack | ikiwiki-wordpress-import.py:63-84 | for a one-line title and date meta, the page opens with a title meta whose value un-escapes to the title and a date meta holding the date, followed by the normalised body and the tag block |
| Entities.HtmlEncode | ikiwiki-wordpress-import.py:41-42 | a successful encoding is all-ASCII |
| Entities.HtmlEncodeSucceedsIff | ikiwiki-wordpress-import.py:41-42 | the encoding succeeds exactly when every character is ASCII or has an entity name that is itself ASCII |
| Entities.HtmlEncodeAsciiIdentity | ikiwiki-wordpress-import.py:41-42 | ASCII text encodes to itself |
| Entities.HtmlEncodeConcat | ikiwiki-wordpress-import.py:41-42 | the encoding of a concatenation is the concatenation of the encodings, and it fails when either part fails |
| Entities.HtmlEncodeSingle | ikiwiki-wordpress-import.py:41-42 | an ASCII character encodes to itself, a non-ASCII character with an ASCII entity name becomes `&name;`, and any other character fails |
| Entities.HtmlEncodeExample | ikiwiki-wordpress-import.py:41-42 | `caf` followed by e-acute becomes `caf&eacute;`; a character the table lacks fails |
| Entities.QuestionEncodeIdentityIff | ikiwiki-wordpress-import.py:126 | the `replace` encoding leaves a text unchanged exactly when the text is all ASCII |
| Entities.QuestionEncodeConcat | ikiwiki-wordpress-import.py:126 | the `replace` encoding of a concatenation is the concatenation of the encodings |
| Dates.ParseGmtText | ikiwiki-wordpress-import.py:107 | a date printed as `YYYY-MM-DD HH:MM:SS` parses back to itself exactly when it is a real date from 1900 on with a second below 60 |
| Dates.ReformatCanonical | ikiwiki-wordpress-import.py:107 | a canonical valid date is rewritten as the same text with `T` for the space and a final `Z` |
| Dates.ReformatShape | ikiwiki-wordpress-import.py:107 | every rewritten date is twenty characters in the form `DDDD-DD-DDTDD:DD:DDZ` |
| Dates.ReformatRejects | ikiwiki-wordpress-import.py:107 | a date in the pattern that is not a real date is rejected |
| Dates.ReformatRejectsExamples | ikiwiki-wordpress-import.py:107 | February 30, 1899 and second 60 are rejected |
| Dates.ReformatLenientExample | ikiwiki-wordpress-import.py:107 | one-digit fields and a tab gap are accepted and printed zero-padded |
| Dates.LenientParse | ikiwiki-wordpress-import.py:107 | `2010-1-5`, two tabs and `3:04:05` parse to 5 January 2010, 03:04:05 |
| Dates.IsoTextExample | ikiwiki-wordpress-import.py:107 | 5 January 2010, 03:04:05 is valid and prints as `2010-01-05T03:04:05Z` |
| Paths.PathJoin | ikiwiki-wordpress-import.py:95 | the joined path ends with the last component; an absolute component replaces the directory, and otherwise the directory is kept as the prefix |
| Paths.PathJoinRelative | ikiwiki-wordpress-import.py:95 | a component not starting with `/` is joined to a non-empty directory not ending in `/` by exactly one `/` |
| Paths.PathJoinAppend | ikiwiki-wordpress-import.py:95 | a component not starting with `/` is appended as it is to an empty directory or one ending in `/`, so `posts/` and `x.mdwn` give `posts/x.mdwn` |
| Paths.PathJoin3Relative | ikiwiki-wordpress-import.py:123 | a non-empty directory not ending in `/`, a non-empty middle component with no `/` at either end and a last component not starting with `/` are joined by single slashes |
| Paths.PathJoinOneLine | ikiwiki-wordpress-import.py:95 | joining one-line components gives a one-line path |
| FastImport.ParseStreamText | ikiwiki-wordpress-import.py:91-126 | the character-level reader reads a stream of framed commands with one-line headers back as exactly those commands |
| FastImport.ParseCommandText | ikiwiki-wordpress-import.py:91-126 | one framed command with one-line header fields (and, for a commit, no `<` in the name and no `>` in the email) reads back from its text, leaving what follows |
| FastImport.ParseDataBlock | ikiwiki-wordpress-import.py:93-126 | a `data <n>` block whose header counts its payload reads back as that payload |
| FastImport.ParseCommitterLine | ikiwiki-wordpress-import.py:92 | for a name without `<` and an email without `>`, the committer line reads back as its name, email and timestamp |
| FastImport.StreamTextConcat | ikiwiki-wordpress-import.py:91-97 | the text of a concatenation of commands is the concatenation of their texts |
| FastImport.ReadableConcat | ikiwiki-wordpress-import.py:91-97 | framed, one-line commands stay so under concatenation |
| Comments.ReadCommentRecordText | ikiwiki-wordpress-import.py:110-122 | for a one-line author, url, title and date, a comment record reads back as its author, its url (present exactly when the comment has one), the escaped title in the subject, the date and the content; the subject un-escapes to the title |
| Comments.CommentPathShape | ikiwiki-wordpress-import.py:123 | for a non-empty directory not ending in `/` and a non-empty stub with no `/` at either end, comment `i` is `subdir/stub/comment_i._comment` |
| Comments.CommentPathOneLine | ikiwiki-wordpress-import.py:123 | a comment path has no newline when the directory and stub have none |
| Comments.CommentFile | ikiwiki-wordpress-import.py:123-126 | a comment file is at the comment path, which has no newline when the directory and stub have none; it carries an all-ASCII payload, and its data header counts the characters of the record |
| Comments.CommentFilePayload | ikiwiki-wordpress-import.py:123-126 | the payload of a comment file is its record with the `replace` encoding applied |
| Comments.CommentPayloadReadsBack | ikiwiki-wordpress-import.py:110-126 | the payload of an all-ASCII record with a one-line author, url, title and date reads back as the author, the url, the escaped title, the date and the content |
| Comments.Approved | ikiwiki-wordpress-import.py:100-102 | a comment is kept exactly when it is in the list and its approved flag is `1` |
| Comments.ApprovedConcat | ikiwiki-wordpress-import.py:100-102 | the approved comments of a concatenation are those of each part, in document order |
| Comments.CommentCommandsNumbering | ikiwiki-wordpress-import.py:99-131 | the approved comments are written in order, the first as number `i` (1 for a post) and each next one as the next number, whatever unapproved comments lie between; the files stop at the first approved comment with a rejected date, which is then the failure, and without one every approved comment gets a file |
| Comments.CommentCommandsFailIff | ikiwiki-wordpress-import.py:101-107 | the comments of a post fail exactly when an approved comment has a date `strptime` rejects |
| Text.ReplaceCharByChar | ikiwiki-wordpress-import.py:84 | replacing one character by another is a pointwise substitution |
| Text.IntToStringRoundTrip | ikiwiki-wordpress-import.py:92 | a `%d` timestamp reads back as the same integer |
| Text.NatToStringRoundTrip | ikiwiki-wordpress-import.py:93-124 | a `%d` count or comment number reads back as the same number |

## Left out

- Parsing the export with BeautifulSoup (lines 37, 45, 50, and every
  `find` or `findAll`) is left out. It is a foreign library. The model
  takes the items with their fields already extracted.
- A missing field is left out. BeautifulSoup gives `None` for it, which
  prints as `None` or raises. The model takes every field as a string,
  except the comment's author URL, which is optional.
- Reading standard input is left out: it is I/O.
- The trailing newline `print` adds after a payload is left out of the
  `data` count, as git fast-import allows.
- How `print` encodes text for standard output is left out.
  - The commit message is printed without encoding. A non-ASCII title or
    GUID therefore makes the script fail, or makes its `data` header count
    characters instead of bytes.
  - The model stays at the character level and does not claim a byte count
    for the commit message.
- Importer.ImportStreamReadsBack: the reader counts characters, while git
  counts bytes. Line 93 counts the characters of the commit message, which
  is printed unencoded, so a non-ASCII title or GUID frames it wrongly in
  bytes. The lemma therefore promises framing in characters only.
  Importer.ImportPayloadsAscii shows that with ASCII titles and GUIDs every
  payload is ASCII, where the two counts agree.
- The stderr fallback of the `try/except` around the comment payload
  (lines 125-129) is left out. The `replace` encoding cannot fail on a
  `unicode` record, and the record is always `unicode` because the
  author is text from the export.
- The committer timestamp, from `time.mktime(time.strptime(...))` at
  line 62, is left out. It depends on the local timezone and the C library.
  It is an opaque integer field of the item, so its failures are not
  modelled.
- The date meta from `datetime.fromtimestamp` at line 64 is left out for
  the same reasons. It is an opaque string field of the item.
- The table `htmlentitydefs.codepoint2name` is a parameter: a map from code
  point to name.
- Case folding beyond ASCII is a parameter too: the one-to-one table behind
  `unicode.lower()`.
- The two exception types of the entity encoding, `KeyError` and
  `UnicodeEncodeError`, are not told apart. Both are the `Unencodable`
  failure.
- Surrogate pairs of narrow Python builds are left out. Each character is
  one Unicode scalar value.
- The usage message of the command line (line 135) is left out: it is
  I/O. A wrong number of arguments is `None` in `Export.ConfigOfArgv`.
- FastImport.ParseStream reads paths verbatim. The script never quotes
  paths, and git's C-style quoting is not part of this model, so a path
  starting with `"` (from a `subdir` that starts with one) is outside it.
- FastImport.ParseStreamText and Importer.ImportStreamReadsBack assume
  one-line configuration fields, a name without `<` and an email without
  `>`. Without them the printed headers are ambiguous. The script does not
  check any of these.
