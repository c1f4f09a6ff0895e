/**
 The comments of a post (lines 99-131): each approved comment becomes an
 ikiwiki `[[!comment]]` file `comment_<i>._comment` in a directory named
 after the post's stub, numbered from 1 among the approved comments only.
 */
module Comments {
  import opened Text
  import opened Export
  import opened Document
  import opened Dates
  import opened Paths
  import opened Entities
  import opened FastImport

  // ---------------------------------------------------------------------
  // The record

  const RecordHead: string := "[[!comment format=mdwn"
  const ContentOpen: string := "content=\"\"\""
  const ContentClose: string := "\n\"\"\"]]"

  function AuthorLine(author: string): string {
    "claimedauthor=\"" + author + "\""
  }

  /** The `url` line, followed by its line feed, present only when the author gave a URL. */
  function UrlLines(url: Option<string>): string {
    match url
    case None => ""
    case Some(u) => "url=\"" + u + "\"" + "\n"
  }

  /** The subject is `Re: ` and the post title, quotes escaped as in the title meta. */
  function SubjectLine(title: string): string {
    "subject=\"Re: " + EscapeQuotes(title) + "\""
  }

  function DateLine(date: string): string {
    "date=\"" + date + "\""
  }

  /**
   Lines 110-122: the record for comment `c` on the post titled `title`,
   with `date` the rewritten comment date. Author, URL and content are
   inserted as they are; only the title is escaped.
   */
  function CommentRecord(c: Comment, title: string, date: string): string {
    RecordHead + "\n" + (AuthorLine(c.author) + "\n" + (UrlLines(c.url) + RecordTail(title, date, c.content)))
  }

  function RecordTail(title: string, date: string, content: string): string {
    SubjectLine(title) + "\n" + (DateLine(date) + "\n" + (ContentOpen + "\n" + (content + ContentClose)))
  }

  // ---------------------------------------------------------------------
  // Reading a record back

  /** The fields a reader finds in a record; the subject is as written, still escaped. */
  datatype RecordFields = RecordFields(author: string, url: Option<string>, subject: string, date: string, content: string)

  /** An optional `url` line: the URL, if the line is there, and the text after it. */
  function ReadUrl(s: string): Option<(Option<string>, string)> {
    match SplitLine(s)
    case None => None
    case Some((line, rest)) =>
      if HasPrefix(line, "url=\"") then
        match Between(line, "url=\"", "\"")
        case None => None
        case Some(u) => Some((Some(u), rest))
      else Some((None, s))
  }

  function ReadRecordTail(s: string): Option<(string, string, string)> {
    match SplitLine(s)
    case None => None
    case Some((subjectLine, r1)) =>
      match SplitLine(r1)
      case None => None
      case Some((dateLine, r2)) =>
        match SplitLine(r2)
        case None => None
        case Some((openLine, body)) =>
          match (Between(subjectLine, "subject=\"Re: ", "\""), Between(dateLine, "date=\"", "\""), Between(body, "", ContentClose))
          case (Some(subject), Some(date), Some(content)) =>
            if openLine == ContentOpen then Some((subject, date, content)) else None
          case _ => None
  }

  function ReadCommentRecord(s: string): Option<RecordFields> {
    match SplitLine(s)
    case None => None
    case Some((head, rest)) => if head == RecordHead then ReadRecordBody(rest) else None
  }

  /** Everything after the first line: the author line, the optional URL line and the tail. */
  function ReadRecordBody(s: string): Option<RecordFields> {
    match SplitLine(s)
    case None => None
    case Some((authorLine, rest)) =>
      match Between(authorLine, "claimedauthor=\"", "\"")
      case None => None
      case Some(author) =>
        match ReadUrl(rest)
        case None => None
        case Some((url, tail)) =>
          match ReadRecordTail(tail)
          case None => None
          case Some((subject, date, content)) => Some(RecordFields(author, url, subject, date, content))
  }

  lemma ReadContentText(content: string)
    ensures SplitLine(ContentOpen + "\n" + (content + ContentClose)) == Some((ContentOpen, content + ContentClose))
    ensures Between(content + ContentClose, "", ContentClose) == Some(content)
  {
    assert '\n' !in ContentOpen;
    SplitLineAfter(ContentOpen, content + ContentClose);
    assert "" + content + ContentClose == content + ContentClose;
    BetweenWraps("", content, ContentClose);
  }

  lemma ReadLineBetween(prefix: string, value: string, suffix: string, rest: string)
    requires '\n' !in prefix + value + suffix
    ensures SplitLine(prefix + value + suffix + "\n" + rest) == Some((prefix + value + suffix, rest))
    ensures Between(prefix + value + suffix, prefix, suffix) == Some(value)
  {
    SplitLineAfter(prefix + value + suffix, rest);
    BetweenWraps(prefix, value, suffix);
  }

  lemma ReadRecordTailText(title: string, date: string, content: string)
    requires '\n' !in title && '\n' !in date
    ensures ReadRecordTail(RecordTail(title, date, content)) == Some((EscapeQuotes(title), date, content))
  {
    EscapeNoNewline(title);
    var escaped := EscapeQuotes(title);
    var r2 := ContentOpen + "\n" + (content + ContentClose);
    var r1 := DateLine(date) + "\n" + r2;
    assert '\n' !in "subject=\"Re: " + escaped + "\"";
    ReadLineBetween("subject=\"Re: ", escaped, "\"", r1);
    assert '\n' !in "date=\"" + date + "\"";
    ReadLineBetween("date=\"", date, "\"", r2);
    ReadContentText(content);
  }

  lemma ReadUrlText(url: Option<string>, tail: string)
    requires url.Some? ==> '\n' !in url.value
    requires HasPrefix(tail, "subject=") && '\n' in tail
    ensures ReadUrl(UrlLines(url) + tail) == Some((url, tail))
  {
    match url
    case Some(u) =>
      var line := "url=\"" + u + "\"";
      assert UrlLines(url) + tail == line + "\n" + tail;
      SplitLineAfter(line, tail);
      assert line == "url=\"" + (u + "\"");
      HasPrefixOf("url=\"", u + "\"");
      BetweenWraps("url=\"", u, "\"");
    case None =>
      assert UrlLines(url) + tail == tail;
      var line := SplitLine(tail).value.0;
      assert !HasPrefix(line, "url=\"") by {
        var rest := SplitLine(tail).value.1;
        assert tail == line + "\n" + rest;
        if |line| >= 5 {
          assert line[..5][0] == line[0] == tail[0] == tail[..8][0] == 's';
        }
      }
  }

  lemma RecordTailShape(title: string, date: string, content: string)
    ensures HasPrefix(RecordTail(title, date, content), "subject=") && '\n' in RecordTail(title, date, content)
  {
    var tail := RecordTail(title, date, content);
    var rest := DateLine(date) + "\n" + (ContentOpen + "\n" + (content + ContentClose));
    var subjectRest := "\"Re: " + EscapeQuotes(title) + "\"";
    assert tail == "subject=" + (subjectRest + "\n" + rest);
    HasPrefixOf("subject=", subjectRest + "\n" + rest);
    assert tail[|tail| - |rest| - 1] == '\n';
  }

  lemma ReadRecordBodyText(c: Comment, title: string, date: string)
    requires '\n' !in c.author && '\n' !in title && '\n' !in date
    requires c.url.Some? ==> '\n' !in c.url.value
    ensures ReadRecordBody(AuthorLine(c.author) + "\n" + (UrlLines(c.url) + RecordTail(title, date, c.content)))
              == Some(RecordFields(c.author, c.url, EscapeQuotes(title), date, c.content))
  {
    var tail := RecordTail(title, date, c.content);
    assert '\n' !in "claimedauthor=\"" + c.author + "\"";
    ReadLineBetween("claimedauthor=\"", c.author, "\"", UrlLines(c.url) + tail);
    RecordTailShape(title, date, c.content);
    ReadUrlText(c.url, tail);
    ReadRecordTailText(title, date, c.content);
  }

  /**
   A record reads back as the comment it was made from: the author, the URL
   line exactly when there is a URL, the subject `Re: ` plus the escaped
   title, the date and the content, whatever the content holds.
   */
  lemma ReadCommentRecordText(c: Comment, title: string, date: string)
    requires '\n' !in c.author && '\n' !in title && '\n' !in date
    requires c.url.Some? ==> '\n' !in c.url.value
    ensures ReadCommentRecord(CommentRecord(c, title, date))
              == Some(RecordFields(c.author, c.url, EscapeQuotes(title), date, c.content))
    ensures UnescapeQuotes(ReadCommentRecord(CommentRecord(c, title, date)).value.subject) == title
  {
    assert '\n' !in RecordHead;
    SplitLineAfter(RecordHead, AuthorLine(c.author) + "\n" + (UrlLines(c.url) + RecordTail(title, date, c.content)));
    ReadRecordBodyText(c, title, date);
    UnescapeEscapeQuotes(title);
  }

  // ---------------------------------------------------------------------
  // Paths and commands

  /** Line 123: `os.path.join(subdir, stub, 'comment_%s._comment' % i)`. */
  function CommentPath(subdir: string, stub: string, i: nat): string {
    PathJoin3(subdir, stub, "comment_" + NatToString(i) + "._comment")
  }

  lemma CommentPathOneLine(subdir: string, stub: string, i: nat)
    ensures '\n' !in subdir && '\n' !in stub ==> '\n' !in CommentPath(subdir, stub, i)
  {
    if '\n' !in subdir && '\n' !in stub {
      var numeral := NatToString(i);
      assert '\n' !in numeral by {
        assert forall m :: 0 <= m < |numeral| ==> IsDigit(numeral[m]);
      }
      assert '\n' !in "comment_" + numeral + "._comment";
      PathJoinOneLine(subdir, stub);
      PathJoinOneLine(PathJoin(subdir, stub), "comment_" + numeral + "._comment");
    }
  }

  /** For a relative directory and a stub without slashes at its ends, the path is `subdir/stub/comment_<i>._comment`. */
  lemma CommentPathShape(subdir: string, stub: string, i: nat)
    requires |subdir| > 0 && subdir[|subdir| - 1] != '/'
    requires |stub| > 0 && stub[0] != '/' && stub[|stub| - 1] != '/'
    ensures CommentPath(subdir, stub, i) == subdir + "/" + stub + "/comment_" + NatToString(i) + "._comment"
  {
    CommentNameJoin(subdir, stub, NatToString(i));
  }

  lemma CommentNameJoin(subdir: string, stub: string, numeral: string)
    requires |subdir| > 0 && subdir[|subdir| - 1] != '/'
    requires |stub| > 0 && stub[0] != '/' && stub[|stub| - 1] != '/'
    ensures PathJoin3(subdir, stub, "comment_" + numeral + "._comment") == subdir + "/" + stub + "/comment_" + numeral + "._comment"
  {
    var name := "comment_" + numeral + "._comment";
    PathJoin3Relative(subdir, stub, name);
    var p := subdir + "/" + stub;
    assert p + "/" + name == (p + "/" + ("comment_" + numeral)) + "._comment";
    assert p + "/" + ("comment_" + numeral) == p + "/comment_" + numeral;
  }

  /**
   Lines 107-126 for one approved comment whose date parses: the file
   change at its numbered path. The header counts the characters of the
   record, and the payload is the record with `?` for every non-ASCII
   character, of the same length.
   */
  function CommentFile(subdir: string, stub: string, title: string, c: Comment, i: nat): (r: Command)
    requires ReformatCommentDate(c.dateGmt).Some?
    ensures r.FileModify? && Framed(r) && IsAscii(r.data)
    ensures r.path == CommentPath(subdir, stub, i)
    ensures '\n' !in subdir && '\n' !in stub ==> '\n' !in r.path
    ensures r.dataLength == |CommentRecord(c, title, ReformatCommentDate(c.dateGmt).value)|
  {
    var data := CommentRecord(c, title, ReformatCommentDate(c.dateGmt).value);
    CommentPathOneLine(subdir, stub, i);
    FileModify(CommentPath(subdir, stub, i), |data|, QuestionEncode(data))
  }

  /** Line 126: the payload of a comment file is its record with `?` for every non-ASCII character. */
  lemma CommentFilePayload(subdir: string, stub: string, title: string, c: Comment, i: nat)
    requires ReformatCommentDate(c.dateGmt).Some?
    ensures CommentFile(subdir, stub, title, c, i).data == QuestionEncode(CommentRecord(c, title, ReformatCommentDate(c.dateGmt).value))
  {
  }

  /**
   When the record is all ASCII, the payload printed for a comment is the
   record itself, so it reads back as the comment.
   */
  lemma CommentPayloadReadsBack(c: Comment, title: string, date: string)
    requires '\n' !in c.author && '\n' !in title && '\n' !in date
    requires c.url.Some? ==> '\n' !in c.url.value
    requires IsAscii(CommentRecord(c, title, date))
    ensures ReadCommentRecord(QuestionEncode(CommentRecord(c, title, date)))
              == Some(RecordFields(c.author, c.url, EscapeQuotes(title), date, c.content))
  {
    QuestionEncodeIdentityIff(CommentRecord(c, title, date));
    ReadCommentRecordText(c, title, date);
  }

  /**
   Lines 99-131: the files for the comments of one post, numbering from `i`.
   Unapproved comments are skipped without using a number; a date `strptime`
   rejects ends the run before that comment's file.
   */
  function CommentCommands(subdir: string, stub: string, title: string, comments: seq<Comment>, i: nat): Emission
    decreases |comments|
  {
    if |comments| == 0 then Emission([], None)
    else
      var c := comments[0];
      if !IsApproved(c) then CommentCommands(subdir, stub, title, comments[1..], i)
      else if ReformatCommentDate(c.dateGmt).None? then Emission([], Some(BadDate(c.dateGmt)))
      else
        var rest := CommentCommands(subdir, stub, title, comments[1..], i + 1);
        Emission([CommentFile(subdir, stub, title, c, i)] + rest.commands, rest.failure)
  }

  /** The approved comments, in document order. */
  function Approved(comments: seq<Comment>): (a: seq<Comment>)
    ensures forall c :: c in a <==> c in comments && IsApproved(c)
    ensures |a| <= |comments|
    decreases |comments|
  {
    if |comments| == 0 then []
    else if IsApproved(comments[0]) then [comments[0]] + Approved(comments[1..])
    else Approved(comments[1..])
  }

  /** A one-element list keeps its element exactly when the filter's test holds. */
  lemma ApprovedSingle(x: Comment)
    ensures Approved([x]) == if IsApproved(x) then [x] else []
  {
    assert [x][1..] == [];
  }

  /**
   Lines 100-102: the approved comments stay in document order:
   the filter distributes over concatenation.
   */
  lemma {:induction false} ApprovedConcat(a: seq<Comment>, b: seq<Comment>)
    ensures Approved(a + b) == Approved(a) + Approved(b)
    decreases |a|
  {
    if |a| == 0 {
      assert a + b == b;
    } else {
      var ab := a + b;
      assert ab[0] == a[0] && ab[1..] == a[1..] + b;
      ApprovedConcat(a[1..], b);
      if IsApproved(a[0]) {
        assert Approved(ab) == [a[0]] + Approved(a[1..] + b);
        assert Approved(a) == [a[0]] + Approved(a[1..]);
      } else {
        assert Approved(ab) == Approved(a[1..] + b);
        assert Approved(a) == Approved(a[1..]);
      }
    }
  }

  /**
   `files` are the files of the first `|files|` comments of `a`, numbered
   consecutively from `i`: the first is `a[0]` as number `i`, and the rest
   are the files of the following comments, numbered from `i + 1`.
   */
  ghost predicate NumberedFrom(files: seq<Command>, a: seq<Comment>, subdir: string, stub: string, title: string, i: nat)
    decreases |files|
  {
    && |files| <= |a|
    && (|files| > 0 ==>
          && ReformatCommentDate(a[0].dateGmt).Some?
          && files[0] == CommentFile(subdir, stub, title, a[0], i)
          && NumberedFrom(files[1..], a[1..], subdir, stub, title, i + 1))
  }

  lemma NumberedFromCons(files: seq<Command>, a: seq<Comment>, c: Comment, subdir: string, stub: string, title: string, i: nat)
    requires ReformatCommentDate(c.dateGmt).Some?
    requires NumberedFrom(files, a, subdir, stub, title, i + 1)
    ensures NumberedFrom([CommentFile(subdir, stub, title, c, i)] + files, [c] + a, subdir, stub, title, i)
  {
    var all, ca := [CommentFile(subdir, stub, title, c, i)] + files, [c] + a;
    assert all[1..] == files && ca[1..] == a;
  }

  /** Every payload of a numbered run of comment files is ASCII. */
  lemma {:induction false} NumberedFromAscii(files: seq<Command>, a: seq<Comment>, subdir: string, stub: string, title: string, i: nat)
    requires NumberedFrom(files, a, subdir, stub, title, i)
    ensures AsciiPayloads(files)
    decreases |files|
  {
    if |files| > 0 {
      NumberedFromAscii(files[1..], a[1..], subdir, stub, title, i + 1);
      AsciiPayloadsCons(files);
    }
  }

  /** A numbered run of comment files holds file changes only. */
  lemma {:induction false} NumberedFromFiles(files: seq<Command>, a: seq<Comment>, subdir: string, stub: string, title: string, i: nat)
    requires NumberedFrom(files, a, subdir, stub, title, i)
    ensures forall k :: 0 <= k < |files| ==> files[k].FileModify?
    decreases |files|
  {
    if |files| > 0 {
      NumberedFromFiles(files[1..], a[1..], subdir, stub, title, i + 1);
      FilesCons(files);
    }
  }

  lemma FilesCons(files: seq<Command>)
    requires |files| > 0 && files[0].FileModify?
    requires forall k :: 0 <= k < |files| - 1 ==> files[1..][k].FileModify?
    ensures forall k :: 0 <= k < |files| ==> files[k].FileModify?
  {
    forall k | 1 <= k < |files| ensures files[k].FileModify? {
      assert files[k] == files[1..][k - 1];
    }
  }

  /**
   The outcome `e` for approved comments `a` numbered from `i`: the files of
   the comments before the first date `strptime` rejects, and a failure
   naming that date exactly when there is one.
   */
  ghost predicate FilesOfApproved(e: Emission, a: seq<Comment>, subdir: string, stub: string, title: string, i: nat) {
    && NumberedFrom(e.commands, a, subdir, stub, title, i)
    && (e.failure.None? ==> |e.commands| == |a|)
    && (e.failure.Some? ==>
          |e.commands| < |a| && e.failure == Some(BadDate(a[|e.commands|].dateGmt))
          && ReformatCommentDate(a[|e.commands|].dateGmt).None?)
  }

  lemma FilesOfApprovedCons(e: Emission, a: seq<Comment>, c: Comment, subdir: string, stub: string, title: string, i: nat)
    requires ReformatCommentDate(c.dateGmt).Some?
    requires FilesOfApproved(e, a, subdir, stub, title, i + 1)
    ensures FilesOfApproved(Emission([CommentFile(subdir, stub, title, c, i)] + e.commands, e.failure), [c] + a, subdir, stub, title, i)
  {
    NumberedFromCons(e.commands, a, c, subdir, stub, title, i);
    if e.failure.Some? {
      assert ([c] + a)[|e.commands| + 1] == a[|e.commands|];
    }
  }

  /**
   The approved comments are written in order, the first as number `i` and
   each next one as the next number, whatever unapproved comments lie
   between; the files stop at the first approved comment whose date does not
   parse, which is then the failure.
   */
  lemma {:induction false} CommentCommandsNumbering(subdir: string, stub: string, title: string, comments: seq<Comment>, i: nat)
    ensures FilesOfApproved(CommentCommands(subdir, stub, title, comments, i), Approved(comments), subdir, stub, title, i)
    decreases |comments|
  {
    if |comments| > 0 {
      var c := comments[0];
      if !IsApproved(c) {
        CommentCommandsNumbering(subdir, stub, title, comments[1..], i);
      } else if ReformatCommentDate(c.dateGmt).None? {
        assert Approved(comments)[0] == c;
      } else {
        CommentCommandsNumbering(subdir, stub, title, comments[1..], i + 1);
        var rest := CommentCommands(subdir, stub, title, comments[1..], i + 1);
        FilesOfApprovedCons(rest, Approved(comments[1..]), c, subdir, stub, title, i);
      }
    }
  }

  /** The run over a post's comments fails exactly when an approved comment has a date `strptime` rejects. */
  lemma {:induction false} CommentCommandsFailIff(subdir: string, stub: string, title: string, comments: seq<Comment>, i: nat)
    ensures CommentCommands(subdir, stub, title, comments, i).failure.Some? <==>
              exists c :: c in comments && IsApproved(c) && ReformatCommentDate(c.dateGmt).None?
    decreases |comments|
  {
    if |comments| > 0 {
      var c := comments[0];
      if IsApproved(c) && ReformatCommentDate(c.dateGmt).None? {
        assert c in comments;
      } else {
        CommentCommandsFailIff(subdir, stub, title, comments[1..], if IsApproved(c) then i + 1 else i);
        forall x | x in comments && IsApproved(x) && ReformatCommentDate(x.dateGmt).None? ensures x in comments[1..] {
          InTail(comments, x);
        }
      }
    }
  }

  lemma InTail<T>(s: seq<T>, x: T)
    requires x in s && x != s[0]
    ensures x in s[1..]
  {
    var k :| 0 <= k < |s| && s[k] == x;
    assert s[1..][k - 1] == x;
  }


}
