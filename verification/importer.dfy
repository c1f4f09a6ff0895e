/**
 The importer's main loop (lines 44-131): for each published post, a
 commit with the page of the post and the files of its approved comments,
 printed as a git fast-import stream. The run stops at the first post whose
 page cannot be encoded or whose approved comment has an unreadable date.
 */
module Importer {
  import opened Text
  import opened Export
  import opened Stub
  import opened Document
  import opened Entities
  import opened Paths
  import opened FastImport
  import opened Comments
  import opened Dates

  /** Line 61: the commit message names the post by title and GUID. */
  function CommitMessage(item: Item): string {
    "Importing WordPress post \"" + item.title + "\" [" + item.guid + "]"
  }

  /** Lines 91-94: the commit of one post. The `data` header counts the characters of the message. */
  function PostCommit(cfg: Config, item: Item): (c: Command)
    ensures c.Commit? && Framed(c)
    ensures c.branch == cfg.branch && c.name == cfg.name && c.email == cfg.email && c.when == item.timestamp
  {
    var message := CommitMessage(item);
    Commit(cfg.branch, cfg.name, cfg.email, item.timestamp, |message|, message)
  }

  /** Line 95: `os.path.join(subdir, stub + '.mdwn')`. */
  function PostPath(subdir: string, stub: string): (p: string)
    ensures HasSuffix(p, stub + ".mdwn")
  {
    PathJoin(subdir, stub + ".mdwn")
  }

  /** Lines 95-97: the page file, whose header counts the encoded page. */
  function PostFile(subdir: string, stub: string, data: string): (c: Command)
    ensures c.FileModify? && Framed(c) && c.path == PostPath(subdir, stub) && c.data == data
  {
    FileModify(PostPath(subdir, stub), |data|, data)
  }

  /**
   The join at line 123 starts with the directory and the stub, and succeeds
   exactly when the join of line 95 with the page name does: only a stub
   starting with `/` spares a non-ASCII directory the decoding, in both.
   */
  lemma CommentJoinDecodes(subdir: string, stub: string)
    ensures JoinDecodes(subdir, stub + ".mdwn") <==> JoinDecodes(subdir, stub)
  {
    if |stub| > 0 {
      assert (stub + ".mdwn")[..1] == stub[..1];
    } else {
      assert (stub + ".mdwn")[..1] == ".";
    }
  }

  /**
   Lines 91-131 for a published post whose page encodes to `data`. The
   commit is printed first. When line 95 cannot join the directory with the
   page name, the run stops there; otherwise the page and the comment files
   follow.
   */
  function PublishedCommands(cfg: Config, caseMap: map<char, char>, item: Item, data: string): Emission {
    var stub := PostStub(caseMap, item.guid, item.title);
    if !JoinDecodes(cfg.subdir, stub + ".mdwn") then Emission([PostCommit(cfg, item)], Some(UndecodableDirectory))
    else
      var comments := CommentCommands(cfg.subdir, stub, item.title, item.comments, 1);
      Emission([PostCommit(cfg, item), PostFile(cfg.subdir, stub, data)] + comments.commands, comments.failure)
  }

  /**
   Lines 52-131 for one item. A draft produces nothing. Otherwise the page
   is entity-encoded first, and a character without an entity stops the
   run before anything of the post is printed; then come the commit, the
   page and the comment files.
   */
  function PostCommands(cfg: Config, tables: Tables, item: Item): (e: Emission)
    ensures !IsPublished(item) ==> e == Emission([], None)
    ensures IsPublished(item) && HtmlEncode(tables.entityNames, PageText(tables.caseMap, item)).None? ==>
              e == Emission([], Some(Unencodable))
  {
    if !IsPublished(item) then Emission([], None)
    else
      match HtmlEncode(tables.entityNames, PageText(tables.caseMap, item))
      case None => Emission([], Some(Unencodable))
      case Some(data) => PublishedCommands(cfg, tables.caseMap, item, data)
  }

  /** The loop over all items, stopping at the first failure. */
  function Import(cfg: Config, tables: Tables, items: seq<Item>): Emission
    decreases |items|
  {
    if |items| == 0 then Emission([], None)
    else
      var first := PostCommands(cfg, tables, items[0]);
      if first.failure.Some? then first
      else
        var rest := Import(cfg, tables, items[1..]);
        Emission(first.commands + rest.commands, rest.failure)
  }

  // ---------------------------------------------------------------------
  // One post

  /**
   A published post whose page encodes opens with its commit. A non-ASCII
   directory joined with a relative page name then stops the run. Otherwise
   the page file comes next: under `subdir`, named after the stub, holding
   the encoded page, all ASCII, with a header that counts it. The comment
   files follow, numbered from 1 among the approved comments.
   */
  lemma PostCommandsShape(cfg: Config, tables: Tables, item: Item)
    requires IsPublished(item)
    requires HtmlEncode(tables.entityNames, PageText(tables.caseMap, item)).Some?
    ensures var e := PostCommands(cfg, tables, item);
            var data := HtmlEncode(tables.entityNames, PageText(tables.caseMap, item)).value;
            var stub := PostStub(tables.caseMap, item.guid, item.title);
            && |e.commands| >= 1
            && e.commands[0] == PostCommit(cfg, item)
            && IsAscii(data)
            && (!JoinDecodes(cfg.subdir, stub + ".mdwn") ==> e == Emission([PostCommit(cfg, item)], Some(UndecodableDirectory)))
            && (JoinDecodes(cfg.subdir, stub + ".mdwn") ==>
                  && |e.commands| >= 2
                  && e.commands[1] == FileModify(PostPath(cfg.subdir, stub), |data|, data)
                  && FilesOfApproved(Emission(e.commands[2..], e.failure), Approved(item.comments), cfg.subdir, stub, item.title, 1))
  {
    var data := HtmlEncode(tables.entityNames, PageText(tables.caseMap, item)).value;
    var stub := PostStub(tables.caseMap, item.guid, item.title);
    var e := PublishedCommands(cfg, tables.caseMap, item, data);
    assert PostCommands(cfg, tables, item) == e;
    if JoinDecodes(cfg.subdir, stub + ".mdwn") {
      var comments := CommentCommands(cfg.subdir, stub, item.title, item.comments, 1);
      CommentCommandsNumbering(cfg.subdir, stub, item.title, item.comments, 1);
      assert e.commands[2..] == comments.commands;
    }
  }

  /**
   Read back from the stream, a post's commit goes to the configured branch,
   by the configured committer at the post's timestamp, and carries the
   message naming the post, with a header that counts that message.
   */
  lemma PostCommitReadsBack(cfg: Config, item: Item, more: string)
    requires '\n' !in cfg.branch && '\n' !in cfg.name && '\n' !in cfg.email && '<' !in cfg.name && '>' !in cfg.email
    ensures ParseCommand(CommandText(PostCommit(cfg, item)) + more)
              == Some((Commit(cfg.branch, cfg.name, cfg.email, item.timestamp, |CommitMessage(item)|, CommitMessage(item)), more))
  {
    ParseCommandText(PostCommit(cfg, item), more);
  }

  /** Read back from the stream, a post's page file sits at the post path and carries the encoded page, whose length its header gives. */
  lemma PostFileReadsBack(subdir: string, stub: string, data: string, more: string)
    requires '\n' !in subdir && '\n' !in stub
    ensures ParseCommand(CommandText(PostFile(subdir, stub, data)) + more)
              == Some((FileModify(PathJoin(subdir, stub + ".mdwn"), |data|, data), more))
  {
    assert '\n' !in stub + ".mdwn";
    PathJoinOneLine(subdir, stub + ".mdwn");
    ParseCommandText(PostFile(subdir, stub, data), more);
  }

  /** For a relative directory and a stub not starting with `/`, the page is `subdir/stub.mdwn`. */
  lemma PostPathShape(subdir: string, stub: string)
    requires |subdir| > 0 && subdir[|subdir| - 1] != '/'
    requires |stub| > 0 && stub[0] != '/'
    ensures PostPath(subdir, stub) == subdir + "/" + stub + ".mdwn"
  {
    PathJoinRelative(subdir, stub + ".mdwn");
    assert subdir + "/" + (stub + ".mdwn") == subdir + "/" + stub + ".mdwn";
  }

  /**
   A post stops the run exactly when it is published and its page has a
   character without an entity, or line 95 cannot join the directory with
   the page name, or one of its approved comments has a date `strptime`
   rejects.
   */
  lemma PostCommandsFailIff(cfg: Config, tables: Tables, item: Item)
    ensures PostCommands(cfg, tables, item).failure.Some? <==>
              && IsPublished(item)
              && (|| HtmlEncode(tables.entityNames, PageText(tables.caseMap, item)).None?
                  || !JoinDecodes(cfg.subdir, PostStub(tables.caseMap, item.guid, item.title) + ".mdwn")
                  || exists c :: c in item.comments && IsApproved(c) && ReformatCommentDate(c.dateGmt).None?)
  {
    if IsPublished(item) && HtmlEncode(tables.entityNames, PageText(tables.caseMap, item)).Some? {
      var stub := PostStub(tables.caseMap, item.guid, item.title);
      if JoinDecodes(cfg.subdir, stub + ".mdwn") {
        CommentCommandsFailIff(cfg.subdir, stub, item.title, item.comments, 1);
      }
    }
  }

  /** Every file the comments of a post produce is a framed `M` command on a one-line path. */
  lemma CommentFilesSafe(cfg: Config, stub: string, item: Item)
    requires '\n' !in cfg.subdir && '\n' !in stub
    ensures Readable(CommentCommands(cfg.subdir, stub, item.title, item.comments, 1).commands)
  {
    var e := CommentCommands(cfg.subdir, stub, item.title, item.comments, 1);
    CommentCommandsNumbering(cfg.subdir, stub, item.title, item.comments, 1);
    NumberedFilesSafe(e.commands, Approved(item.comments), cfg.subdir, stub, item.title, 1);
  }

  lemma {:induction false} NumberedFilesSafe(files: seq<Command>, a: seq<Comment>, subdir: string, stub: string, title: string, i: nat)
    requires '\n' !in subdir && '\n' !in stub
    requires NumberedFrom(files, a, subdir, stub, title, i)
    ensures Readable(files)
    decreases |files|
  {
    if |files| > 0 {
      NumberedFilesSafe(files[1..], a[1..], subdir, stub, title, i + 1);
      ReadableCons(files);
    }
  }

  /** A one-line configuration gives commands whose headers read back and whose data headers count their payloads. */
  predicate SafeConfig(cfg: Config) {
    '\n' !in cfg.branch && '\n' !in cfg.name && '\n' !in cfg.email && '\n' !in cfg.subdir
    && '<' !in cfg.name && '>' !in cfg.email
  }

  lemma PublishedCommandsSafe(cfg: Config, caseMap: map<char, char>, item: Item, data: string)
    requires SafeConfig(cfg)
    ensures Readable(PublishedCommands(cfg, caseMap, item, data).commands)
  {
    var stub := PostStub(caseMap, item.guid, item.title);
    PostHeadSafe(cfg, stub, item, data);
    if JoinDecodes(cfg.subdir, stub + ".mdwn") {
      var comments := CommentCommands(cfg.subdir, stub, item.title, item.comments, 1);
      CommentFilesSafe(cfg, stub, item);
      ReadableConcat([PostCommit(cfg, item), PostFile(cfg.subdir, stub, data)], comments.commands);
    }
  }

  /** The commit and the page file of a post read back under a one-line configuration and stub. */
  lemma PostHeadSafe(cfg: Config, stub: string, item: Item, data: string)
    requires SafeConfig(cfg) && '\n' !in stub
    ensures Readable([PostCommit(cfg, item)])
    ensures Readable([PostCommit(cfg, item), PostFile(cfg.subdir, stub, data)])
  {
    assert '\n' !in stub + ".mdwn";
    PathJoinOneLine(cfg.subdir, stub + ".mdwn");
    var head := [PostCommit(cfg, item), PostFile(cfg.subdir, stub, data)];
    assert HeaderSafe(head[0]) && HeaderSafe(head[1]);
  }

  lemma PostCommandsSafe(cfg: Config, tables: Tables, item: Item)
    requires SafeConfig(cfg)
    ensures Readable(PostCommands(cfg, tables, item).commands)
  {
    if IsPublished(item) && HtmlEncode(tables.entityNames, PageText(tables.caseMap, item)).Some? {
      PublishedCommandsSafe(cfg, tables.caseMap, item, HtmlEncode(tables.entityNames, PageText(tables.caseMap, item)).value);
    }
  }

  // ---------------------------------------------------------------------
  // The whole run

  /** The published items, in order. */
  function Published(items: seq<Item>): (p: seq<Item>)
    ensures forall item :: item in p <==> item in items && IsPublished(item)
    decreases |items|
  {
    if |items| == 0 then []
    else if IsPublished(items[0]) then [items[0]] + Published(items[1..])
    else Published(items[1..])
  }

  /** A one-element list keeps its element exactly when the filter's test holds. */
  lemma PublishedSingle(x: Item)
    ensures Published([x]) == if IsPublished(x) then [x] else []
  {
    assert [x][1..] == [];
  }

  /**
   Lines 50-52: the published items stay in export order:
   the filter distributes over concatenation.
   */
  lemma {:induction false} PublishedConcat(a: seq<Item>, b: seq<Item>)
    ensures Published(a + b) == Published(a) + Published(b)
    decreases |a|
  {
    if |a| == 0 {
      assert a + b == b;
    } else {
      var ab := a + b;
      assert ab[0] == a[0] && ab[1..] == a[1..] + b;
      PublishedConcat(a[1..], b);
      if IsPublished(a[0]) {
        assert Published(ab) == [a[0]] + Published(a[1..] + b);
        assert Published(a) == [a[0]] + Published(a[1..]);
      } else {
        assert Published(ab) == Published(a[1..] + b);
        assert Published(a) == Published(a[1..]);
      }
    }
  }

  /** Drafts leave no trace: the run over all items is the run over the published ones. */
  lemma {:induction false} ImportSkipsDrafts(cfg: Config, tables: Tables, items: seq<Item>)
    ensures Import(cfg, tables, items) == Import(cfg, tables, Published(items))
    decreases |items|
  {
    if |items| > 0 {
      ImportSkipsDrafts(cfg, tables, items[1..]);
      var p := Published(items);
      if IsPublished(items[0]) {
        assert p[0] == items[0] && p[1..] == Published(items[1..]);
      } else {
        assert PostCommands(cfg, tables, items[0]).commands == [];
        assert [] + Import(cfg, tables, items[1..]).commands == Import(cfg, tables, items[1..]).commands;
      }
    }
  }

  /** The run fails exactly when one of the items fails. */
  lemma {:induction false} ImportFailsIff(cfg: Config, tables: Tables, items: seq<Item>)
    ensures Import(cfg, tables, items).failure.Some? <==>
              exists k :: 0 <= k < |items| && PostCommands(cfg, tables, items[k]).failure.Some?
    decreases |items|
  {
    if |items| > 0 {
      ImportFailsIff(cfg, tables, items[1..]);
      if PostCommands(cfg, tables, items[0]).failure.None? {
        forall k | 1 <= k < |items| ensures items[k] == items[1..][k - 1] { }
        if Import(cfg, tables, items).failure.Some? {
          var k :| 0 <= k < |items[1..]| && PostCommands(cfg, tables, items[1..][k]).failure.Some?;
          assert items[1..][k] == items[k + 1];
        }
      }
    }
  }

  /**
   With a one-line configuration, the character-level reader reads back
   from the printed stream exactly the commands printed, so every `data`
   header frames its payload counted in characters. Git counts bytes; the
   two agree when every payload is ASCII (see `ImportPayloadsAscii`).
   */
  lemma ImportStreamReadsBack(cfg: Config, tables: Tables, items: seq<Item>)
    requires SafeConfig(cfg)
    ensures ParseStream(StreamText(Import(cfg, tables, items).commands)) == Some(Import(cfg, tables, items).commands)
  {
    ImportSafe(cfg, tables, items);
    ParseStreamText(Import(cfg, tables, items).commands);
  }

  lemma {:induction false} ImportSafe(cfg: Config, tables: Tables, items: seq<Item>)
    requires SafeConfig(cfg)
    ensures Readable(Import(cfg, tables, items).commands)
    decreases |items|
  {
    if |items| > 0 {
      PostCommandsSafe(cfg, tables, items[0]);
      var first := PostCommands(cfg, tables, items[0]);
      if first.failure.None? {
        ImportSafe(cfg, tables, items[1..]);
        ReadableConcat(first.commands, Import(cfg, tables, items[1..]).commands);
      }
    }
  }

  // ---------------------------------------------------------------------
  // Characters and bytes

  /** A commit message is ASCII when the post's title and GUID are. */
  lemma CommitMessageAscii(item: Item)
    requires IsAscii(item.title) && IsAscii(item.guid)
    ensures IsAscii(CommitMessage(item))
  {
    var open, middle, close := "Importing WordPress post \"", "\" [", "]";
    assert IsAscii(open) && IsAscii(middle) && IsAscii(close);
    AsciiConcat(open, item.title);
    AsciiConcat(open + item.title, middle);
    AsciiConcat(open + item.title + middle, item.guid);
    AsciiConcat(open + item.title + middle + item.guid, close);
  }

  lemma CommentPayloadsAscii(cfg: Config, stub: string, item: Item)
    ensures AsciiPayloads(CommentCommands(cfg.subdir, stub, item.title, item.comments, 1).commands)
  {
    var e := CommentCommands(cfg.subdir, stub, item.title, item.comments, 1);
    CommentCommandsNumbering(cfg.subdir, stub, item.title, item.comments, 1);
    NumberedFromAscii(e.commands, Approved(item.comments), cfg.subdir, stub, item.title, 1);
  }

  lemma PublishedPayloadsAscii(cfg: Config, caseMap: map<char, char>, item: Item, data: string)
    requires IsAscii(item.title) && IsAscii(item.guid) && IsAscii(data)
    ensures AsciiPayloads(PublishedCommands(cfg, caseMap, item, data).commands)
  {
    var stub := PostStub(caseMap, item.guid, item.title);
    PostHeadAscii(cfg, stub, item, data);
    if JoinDecodes(cfg.subdir, stub + ".mdwn") {
      var comments := CommentCommands(cfg.subdir, stub, item.title, item.comments, 1);
      CommentPayloadsAscii(cfg, stub, item);
      AsciiPayloadsConcat([PostCommit(cfg, item), PostFile(cfg.subdir, stub, data)], comments.commands);
    }
  }

  /** The commit and the page file of a post carry ASCII payloads when the title, GUID and page are ASCII. */
  lemma PostHeadAscii(cfg: Config, stub: string, item: Item, data: string)
    requires IsAscii(item.title) && IsAscii(item.guid) && IsAscii(data)
    ensures AsciiPayloads([PostCommit(cfg, item)])
    ensures AsciiPayloads([PostCommit(cfg, item), PostFile(cfg.subdir, stub, data)])
  {
    CommitMessageAscii(item);
    var head := [PostCommit(cfg, item), PostFile(cfg.subdir, stub, data)];
    assert Payload(head[0]) == CommitMessage(item) && Payload(head[1]) == data;
  }

  /**
   When every post's title and GUID are ASCII, every payload of the run is
   ASCII: the page is entity-encoded and the comments `?`-encoded. Only then
   does the character count in each `data` header equal the bytes that
   follow it, since line 93 counts the characters of the commit message.
   */
  lemma {:induction false} ImportPayloadsAscii(cfg: Config, tables: Tables, items: seq<Item>)
    requires forall k :: 0 <= k < |items| ==> IsAscii(items[k].title) && IsAscii(items[k].guid)
    ensures AsciiPayloads(Import(cfg, tables, items).commands)
    decreases |items|
  {
    if |items| > 0 {
      var item := items[0];
      var first := PostCommands(cfg, tables, item);
      if IsPublished(item) && HtmlEncode(tables.entityNames, PageText(tables.caseMap, item)).Some? {
        PublishedPayloadsAscii(cfg, tables.caseMap, item, HtmlEncode(tables.entityNames, PageText(tables.caseMap, item)).value);
      }
      if first.failure.None? {
        assert forall k :: 0 <= k < |items| - 1 ==> items[1..][k] == items[k + 1];
        ImportPayloadsAscii(cfg, tables, items[1..]);
        AsciiPayloadsConcat(first.commands, Import(cfg, tables, items[1..]).commands);
      }
    }
  }

  // ---------------------------------------------------------------------
  // One commit per post

  /** The commit commands of a stream, in order. */
  function Commits(cmds: seq<Command>): (r: seq<Command>)
    ensures forall c :: c in r <==> c in cmds && c.Commit?
    decreases |cmds|
  {
    if |cmds| == 0 then []
    else if cmds[0].Commit? then [cmds[0]] + Commits(cmds[1..])
    else Commits(cmds[1..])
  }

  lemma {:induction false} CommitsConcat(a: seq<Command>, b: seq<Command>)
    ensures Commits(a + b) == Commits(a) + Commits(b)
    decreases |a|
  {
    if |a| == 0 {
      assert a + b == b;
    } else {
      CommitsConcat(a[1..], b);
      assert (a + b)[0] == a[0];
      assert (a + b)[1..] == a[1..] + b;
    }
  }

  lemma NoCommits(cmds: seq<Command>)
    requires forall k :: 0 <= k < |cmds| ==> cmds[k].FileModify?
    ensures Commits(cmds) == []
  {
  }

  lemma CommentFilesOnly(subdir: string, stub: string, title: string, comments: seq<Comment>)
    ensures forall k :: 0 <= k < |CommentCommands(subdir, stub, title, comments, 1).commands| ==>
              CommentCommands(subdir, stub, title, comments, 1).commands[k].FileModify?
  {
    CommentCommandsNumbering(subdir, stub, title, comments, 1);
    var e := CommentCommands(subdir, stub, title, comments, 1);
    NumberedFromFiles(e.commands, Approved(comments), subdir, stub, title, 1);
  }

  lemma PublishedCommits(cfg: Config, caseMap: map<char, char>, item: Item, data: string)
    ensures Commits(PublishedCommands(cfg, caseMap, item, data).commands) == [PostCommit(cfg, item)]
  {
    var stub := PostStub(caseMap, item.guid, item.title);
    if JoinDecodes(cfg.subdir, stub + ".mdwn") {
      var comments := CommentCommands(cfg.subdir, stub, item.title, item.comments, 1);
      assert Commits(comments.commands) == [] by {
        CommentFilesOnly(cfg.subdir, stub, item.title, item.comments);
        NoCommits(comments.commands);
      }
      var head := [PostCommit(cfg, item), PostFile(cfg.subdir, stub, data)];
      CommitsConcat(head, comments.commands);
      assert head[1..] == [head[1]];
      assert Commits(head) == [PostCommit(cfg, item)];
    } else {
      assert [PostCommit(cfg, item)][1..] == [];
    }
  }

  /** The commits of a post: one if it is published and its page encodes, none otherwise. */
  lemma PostCommits(cfg: Config, tables: Tables, item: Item)
    ensures Commits(PostCommands(cfg, tables, item).commands) ==
              if PostCommands(cfg, tables, item).commands == [] then [] else [PostCommit(cfg, item)]
  {
    if IsPublished(item) && HtmlEncode(tables.entityNames, PageText(tables.caseMap, item)).Some? {
      PublishedCommits(cfg, tables.caseMap, item, HtmlEncode(tables.entityNames, PageText(tables.caseMap, item)).value);
    }
  }

  /** The commit of each post, in order. */
  function CommitsFor(cfg: Config, items: seq<Item>): (r: seq<Command>)
    ensures |r| == |items|
    decreases |items|
  {
    if |items| == 0 then [] else [PostCommit(cfg, items[0])] + CommitsFor(cfg, items[1..])
  }

  /**
   A run that completes makes exactly one commit per published post, in the
   order of the export, and none for drafts.
   */
  lemma {:induction false} ImportCommits(cfg: Config, tables: Tables, items: seq<Item>)
    requires Import(cfg, tables, items).failure.None?
    ensures Commits(Import(cfg, tables, items).commands) == CommitsFor(cfg, Published(items))
    decreases |items|
  {
    if |items| > 0 {
      var first := PostCommands(cfg, tables, items[0]);
      var rest := Import(cfg, tables, items[1..]);
      ImportCommits(cfg, tables, items[1..]);
      PostCommits(cfg, tables, items[0]);
      CommitsConcat(first.commands, rest.commands);
      if IsPublished(items[0]) {
        assert first.commands != [];
        assert Published(items) == [items[0]] + Published(items[1..]);
      } else {
        assert first.commands == [];
      }
    }
  }
}
