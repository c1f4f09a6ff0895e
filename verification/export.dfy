/**
 The data model: the fields the importer pulls out of each `<item>` of a
 WordPress export, already extracted from the XML, and the command-line
 configuration.
 */
module Export {
  import opened Text

  /** A `<category>` element: its text, and whether it carries a `nicename` attribute. */
  datatype Category = Category(text: string, hasNicename: bool)

  /** A `<wp:comment>` element. `url` is `None` when the author-URL element is empty. */
  datatype Comment = Comment(
    approved: string,
    author: string,
    url: Option<string>,
    dateGmt: string,
    content: string)

  /**
   An `<item>`. `timestamp` is the committer time the importer derives from
   `<wp:post_date_gmt>` through the local time zone, and `localDate` the text
   it prints for the date meta; both are taken as given.
   */
  datatype Item = Item(
    status: string,
    guid: string,
    title: string,
    body: string,
    timestamp: int,
    localDate: string,
    categories: seq<Category>,
    comments: seq<Comment>)

  /** The command line: committer name and e-mail, target sub-directory, branch. */
  datatype Config = Config(name: string, email: string, subdir: string, branch: string)

  /** Line 44: the branch used when none is given on the command line. */
  const DefaultBranch: string := "master"

  /**
   Lines 133-137 and 44: the command line, program name first. It takes the
   name, the e-mail and the sub-directory, then an optional branch; any other
   number of arguments is the usage error, `None`.
   */
  function ConfigOfArgv(argv: seq<string>): (r: Option<Config>)
    ensures r.Some? <==> |argv| == 4 || |argv| == 5
    ensures r.Some? ==> r.value.name == argv[1] && r.value.email == argv[2] && r.value.subdir == argv[3]
    ensures r.Some? ==> r.value.branch == if |argv| == 5 then argv[4] else DefaultBranch
  {
    if |argv| == 4 then Some(Config(argv[1], argv[2], argv[3], DefaultBranch))
    else if |argv| == 5 then Some(Config(argv[1], argv[2], argv[3], argv[4]))
    else None
  }

  /**
   Leaving the branch out is the same as naming `master`, and every
   configuration can be given on the command line.
   */
  lemma ConfigOfArgvDefault(program: string, cfg: Config)
    ensures ConfigOfArgv([program, cfg.name, cfg.email, cfg.subdir, cfg.branch]) == Some(cfg)
    ensures cfg.branch == DefaultBranch ==> ConfigOfArgv([program, cfg.name, cfg.email, cfg.subdir]) == Some(cfg)
  {
  }

  /**
   The two Unicode tables the importer consults: the HTML entity names by
   code point (`htmlentitydefs.codepoint2name`) and the simple lower-case
   mapping of non-ASCII characters.
   */
  datatype Tables = Tables(entityNames: map<int, string>, caseMap: map<char, char>)

  predicate IsPublished(item: Item) {
    item.status == "publish"
  }

  predicate IsApproved(c: Comment) {
    c.approved == "1"
  }
}
