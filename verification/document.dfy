/**
 The ikiwiki page written for a post: a title meta directive, a date meta
 directive, the body with CRLF line ends turned into LF, and one tag
 directive per category that carries a nicename.
 */
module Document {
  import opened Text
  import opened Export

  // ---------------------------------------------------------------------
  // Quote escaping

  /** `title.replace('"', r'\"')`: every double quote gets a backslash in front. */
  function EscapeQuotes(s: string): string {
    Replace(s, "\"", "\\\"")
  }

  /** A reader's view of an escaped value: each `\"` stands for `"`. */
  function UnescapeQuotes(t: string): string
    decreases |t|
  {
    if |t| == 0 then []
    else if |t| >= 2 && t[0] == '\\' && t[1] == '"' then "\"" + UnescapeQuotes(t[2..])
    else [t[0]] + UnescapeQuotes(t[1..])
  }

  lemma EscapeQuotesStep(s: string)
    requires |s| > 0
    ensures EscapeQuotes(s) == (if s[0] == '"' then "\\\"" else [s[0]]) + EscapeQuotes(s[1..])
  {
    assert s[..1] == [s[0]];
  }

  /**
   Escaping inserts exactly one character per double quote, and the
   escaped text never starts with a bare `"`.
   */
  lemma {:induction false} EscapeQuotesLength(s: string)
    ensures |EscapeQuotes(s)| == |s| + multiset(s)['"']
    ensures |EscapeQuotes(s)| > 0 ==> EscapeQuotes(s)[0] != '"'
    decreases |s|
  {
    if |s| > 0 {
      EscapeQuotesStep(s);
      EscapeQuotesLength(s[1..]);
      assert s == [s[0]] + s[1..];
      assert multiset(s) == multiset{s[0]} + multiset(s[1..]);
    }
  }

  /** Escaping works character by character. */
  lemma {:induction false} EscapeQuotesConcat(a: string, b: string)
    ensures EscapeQuotes(a + b) == EscapeQuotes(a) + EscapeQuotes(b)
    decreases |a|
  {
    if |a| == 0 {
      assert a + b == b;
      assert EscapeQuotes(a) == [];
    } else {
      EscapeQuotesStep(a);
      EscapeQuotesStep(a + b);
      EscapeQuotesConcat(a[1..], b);
      assert (a + b)[0] == a[0] && (a + b)[1..] == a[1..] + b;
    }
  }

  /** A title without double quotes is written as it is. */
  lemma {:induction false} EscapeQuotesNoQuote(s: string)
    requires '"' !in s
    ensures EscapeQuotes(s) == s
    decreases |s|
  {
    if |s| > 0 {
      EscapeQuotesStep(s);
      EscapeQuotesNoQuote(s[1..]);
      assert s == [s[0]] + s[1..];
    }
  }

  /** Escaping loses nothing: un-escaping gives back the original title. */
  lemma {:induction false} UnescapeEscapeQuotes(s: string)
    ensures UnescapeQuotes(EscapeQuotes(s)) == s
    decreases |s|
  {
    if |s| > 0 {
      EscapeQuotesStep(s);
      UnescapeEscapeQuotes(s[1..]);
      EscapeQuotesLength(s[1..]);
      var t := EscapeQuotes(s[1..]);
      if s[0] == '"' {
        assert ("\\\"" + t)[2..] == t;
      } else {
        assert ([s[0]] + t)[1..] == t;
      }
    }
  }

  /** In escaped text every double quote is preceded by a backslash. */
  lemma {:induction false} EscapedQuotesArePreceded(s: string)
    ensures forall k :: 0 <= k < |EscapeQuotes(s)| && EscapeQuotes(s)[k] == '"' ==>
              k > 0 && EscapeQuotes(s)[k - 1] == '\\'
    decreases |s|
  {
    if |s| > 0 {
      EscapeQuotesStep(s);
      EscapedQuotesArePreceded(s[1..]);
      EscapeQuotesLength(s[1..]);
      var t := EscapeQuotes(s[1..]);
      var head := if s[0] == '"' then "\\\"" else [s[0]];
      var r := head + t;
      forall k | 0 <= k < |r| && r[k] == '"' ensures k > 0 && r[k - 1] == '\\' {
        if k >= |head| {
          assert r[k] == t[k - |head|];
          if k - |head| > 0 {
            assert r[k - 1] == t[k - |head| - 1];
          }
        }
      }
    }
  }

  // ---------------------------------------------------------------------
  // Line ends

  /** `body.replace('\r\n', '\n')`: a single left-to-right pass. */
  function NormaliseNewlines(body: string): string {
    Replace(body, "\r\n", "\n")
  }

  /** Reference: delete every carriage return that directly precedes a line feed; keep the rest. */
  function DropCrBeforeLf(s: string): string
    decreases |s|
  {
    if |s| == 0 then []
    else if |s| >= 2 && s[0] == '\r' && s[1] == '\n' then DropCrBeforeLf(s[1..])
    else [s[0]] + DropCrBeforeLf(s[1..])
  }

  /**
   The single pass of `replace` deletes exactly the carriage returns that
   stand right before a line feed in the original body, and nothing else.
   */
  lemma {:induction false} NormaliseNewlinesDropsCr(s: string)
    ensures NormaliseNewlines(s) == DropCrBeforeLf(s)
    decreases |s|
  {
    if |s| >= 2 && s[..2] == "\r\n" {
      NormaliseNewlinesDropsCr(s[2..]);
      assert s[1..][1..] == s[2..];
      assert s[1..][..1] == "\n";
    } else if |s| > 0 {
      NormaliseNewlinesDropsCr(s[1..]);
      if |s| >= 2 {
        assert s[..1] == [s[0]];
      }
    }
  }

  /** One pass is not enough for `\r\r\n`, and a lone `\r` is left alone. */
  lemma NormaliseNewlinesExamples()
    ensures NormaliseNewlines("\r\r\n") == "\r\n"
    ensures NormaliseNewlines("a\rb") == "a\rb"
    ensures NormaliseNewlines("a\r\nb\r\n") == "a\nb\n"
  {
    NormaliseNewlinesDropsCr("\r\r\n");
    NormaliseNewlinesDropsCr("a\rb");
    NormaliseNewlinesDropsCr("a\r\nb\r\n");
  }

  // ---------------------------------------------------------------------
  // Tags

  /** Lines 78-79: the categories whose `hasNicename` flag is set, in document order. */
  function Tagged(cats: seq<Category>): (t: seq<Category>)
    ensures |t| <= |cats|
    ensures forall c :: c in t <==> c in cats && c.hasNicename
    decreases |cats|
  {
    if |cats| == 0 then []
    else if cats[0].hasNicename then [cats[0]] + Tagged(cats[1..])
    else Tagged(cats[1..])
  }

  /** A one-element list keeps its element exactly when the filter's test holds. */
  lemma TaggedSingle(x: Category)
    ensures Tagged([x]) == if x.hasNicename then [x] else []
  {
    assert [x][1..] == [];
  }

  /**
   Lines 78-79: the tagged categories stay in document order:
   the filter distributes over concatenation.
   */
  lemma {:induction false} TaggedConcat(a: seq<Category>, b: seq<Category>)
    ensures Tagged(a + b) == Tagged(a) + Tagged(b)
    decreases |a|
  {
    if |a| == 0 {
      assert a + b == b;
    } else {
      var ab := a + b;
      assert ab[0] == a[0] && ab[1..] == a[1..] + b;
      TaggedConcat(a[1..], b);
      if a[0].hasNicename {
        assert Tagged(ab) == [a[0]] + Tagged(a[1..] + b);
        assert Tagged(a) == [a[0]] + Tagged(a[1..]);
      } else {
        assert Tagged(ab) == Tagged(a[1..] + b);
        assert Tagged(a) == Tagged(a[1..]);
      }
    }
  }

  /** Line 84: the tag name of a category's `text`, with each space replaced by a hyphen and the result lower-cased. */
  function TagName(caseMap: map<char, char>, text: string): string {
    Lower(caseMap, Replace(text, " ", "-"))
  }

  /** A tag name has one character per character of the category: spaces become hyphens, the rest is lower-cased. */
  lemma TagNameChars(caseMap: map<char, char>, text: string)
    ensures |TagName(caseMap, text)| == |text|
    ensures forall k :: 0 <= k < |text| ==>
              TagName(caseMap, text)[k] == (if text[k] == ' ' then '-' else LowerChar(caseMap, text[k]))
  {
    ReplaceCharByChar(text, ' ', '-');
  }

  /** `[[!tag  name]]` */
  function TagMarkup(name: string): string {
    "[[!tag  " + name + "]]"
  }

  /** Line 84: a line feed and the tag for category `c`. */
  function TagLine(caseMap: map<char, char>, c: Category): string {
    "\n" + TagMarkup(TagName(caseMap, c.text))
  }

  function TagLines(caseMap: map<char, char>, cats: seq<Category>): string
    decreases |cats|
  {
    if |cats| == 0 then [] else TagLine(caseMap, cats[0]) + TagLines(caseMap, cats[1..])
  }

  /** What follows the body: nothing without tagged categories, else a blank line's `\n` and the tag lines. */
  function TagBlock(caseMap: map<char, char>, cats: seq<Category>): string {
    var tagged := Tagged(cats);
    if |tagged| > 0 then "\n" + TagLines(caseMap, tagged) else ""
  }

  /** Reads tag lines back: each is a newline followed by `[[!tag  name]]`. */
  function ReadTagLines(s: string): Option<seq<string>>
    decreases |s|
  {
    if |s| == 0 then Some([])
    else if s[0] != '\n' then None
    else
      var rest := s[1..];
      var i := FindFirst(rest, '\n');
      match Between(rest[..i], "[[!tag  ", "]]")
      case None => None
      case Some(name) =>
        match ReadTagLines(rest[i..])
        case None => None
        case Some(names) => Some([name] + names)
  }

  /** Reads the block after the body: empty, or one newline and then tag lines. */
  function ReadTagBlock(s: string): Option<seq<string>> {
    if |s| == 0 then Some([])
    else if s[0] != '\n' || |s| == 1 then None
    else ReadTagLines(s[1..])
  }

  function TagNames(caseMap: map<char, char>, cats: seq<Category>): (names: seq<string>)
    ensures |names| == |cats|
    ensures forall k :: 0 <= k < |cats| ==> names[k] == TagName(caseMap, cats[k].text)
  {
    seq(|cats|, k requires 0 <= k < |cats| => TagName(caseMap, cats[k].text))
  }

  lemma TagMarkupOneLine(name: string)
    requires '\n' !in name
    ensures '\n' !in TagMarkup(name)
  {
    assert '\n' !in "[[!tag  " && '\n' !in "]]";
  }

  lemma ReadTagLineStep(name: string, more: string)
    requires '\n' !in name
    requires |more| == 0 || more[0] == '\n'
    ensures ReadTagLines(more).Some? ==>
              ReadTagLines("\n" + TagMarkup(name) + more) == Some([name] + ReadTagLines(more).value)
  {
    TagMarkupOneLine(name);
    BetweenWraps("[[!tag  ", name, "]]");
    ReadTagLinesCons(TagMarkup(name), name, more);
  }

  /** One tag line, then more lines: the reader takes the line's name and continues after it. */
  lemma ReadTagLinesCons(line: string, name: string, more: string)
    requires '\n' !in line && (|more| == 0 || more[0] == '\n')
    requires Between(line, "[[!tag  ", "]]") == Some(name)
    ensures ReadTagLines(more).Some? ==> ReadTagLines("\n" + line + more) == Some([name] + ReadTagLines(more).value)
  {
    var s := "\n" + line + more;
    var rest := s[1..];
    assert rest == line + more;
    FindFirstAt(line, more, '\n');
    assert rest[..|line|] == line && rest[|line|..] == more;
  }

  lemma {:induction false} ReadTagLinesRoundTrip(caseMap: map<char, char>, cats: seq<Category>)
    requires forall k :: 0 <= k < |cats| ==> '\n' !in TagName(caseMap, cats[k].text)
    ensures ReadTagLines(TagLines(caseMap, cats)) == Some(TagNames(caseMap, cats))
    decreases |cats|
  {
    if |cats| > 0 {
      ReadTagLinesRoundTrip(caseMap, cats[1..]);
      var name := TagName(caseMap, cats[0].text);
      var more := TagLines(caseMap, cats[1..]);
      assert TagLines(caseMap, cats) == "\n" + TagMarkup(name) + more;
      TagLinesStart(caseMap, cats[1..]);
      ReadTagLineStep(name, more);
      TagNamesCons(caseMap, cats);
    }
  }

  lemma TagLinesStart(caseMap: map<char, char>, cats: seq<Category>)
    ensures |TagLines(caseMap, cats)| == 0 || TagLines(caseMap, cats)[0] == '\n'
  {
    if |cats| > 0 {
      var first := TagLine(caseMap, cats[0]);
      assert |first| > 0 && first[0] == '\n';
      assert TagLines(caseMap, cats) == first + TagLines(caseMap, cats[1..]);
    }
  }

  lemma TagNamesCons(caseMap: map<char, char>, cats: seq<Category>)
    requires |cats| > 0
    ensures TagNames(caseMap, cats) == [TagName(caseMap, cats[0].text)] + TagNames(caseMap, cats[1..])
  {
    var names, tail := TagNames(caseMap, cats), TagNames(caseMap, cats[1..]);
    forall k | 0 <= k < |cats| ensures names[k] == ([names[0]] + tail)[k] {
      if k > 0 {
        assert cats[1..][k - 1] == cats[k];
        assert tail[k - 1] == names[k];
      }
    }
  }

  /**
   The block after the body lists the tag name of every category with a
   nicename, in document order, and is empty exactly when there is none.
   */
  lemma TagBlockRoundTrip(caseMap: map<char, char>, cats: seq<Category>)
    requires forall c :: c in cats && c.hasNicename ==> '\n' !in TagName(caseMap, c.text)
    ensures ReadTagBlock(TagBlock(caseMap, cats)) == Some(TagNames(caseMap, Tagged(cats)))
    ensures TagBlock(caseMap, cats) == "" <==> forall c :: c in cats ==> !c.hasNicename
  {
    var tagged := Tagged(cats);
    assert forall k :: 0 <= k < |tagged| ==> tagged[k] in tagged;
    ReadTagLinesRoundTrip(caseMap, tagged);
    if |tagged| > 0 {
      assert tagged[0] in tagged;
      var s := TagBlock(caseMap, cats);
      assert s[1..] == TagLines(caseMap, tagged);
      assert |s| > 1;
    }
  }

  // ---------------------------------------------------------------------
  // The page

  function TitleMeta(title: string): string {
    "[[!meta  title=\"" + EscapeQuotes(title) + "\"]]"
  }

  function DateMeta(localDate: string): string {
    "[[!meta  date=\"" + localDate + "\"]]"
  }

  /** The page text of a post, before entity encoding. */
  function PageText(caseMap: map<char, char>, item: Item): string {
    TitleMeta(item.title) + "\n" + (DateMeta(item.localDate) + "\n" + PageBody(caseMap, item))
  }

  /** Lines 65-84: what follows the two meta lines. */
  function PageBody(caseMap: map<char, char>, item: Item): string {
    NormaliseNewlines(item.body) + TagBlock(caseMap, item.categories)
  }

  /** Reads the two meta lines: the escaped title, the date, and what follows them. */
  function ReadPageHead(page: string): Option<(string, string, string)> {
    match SplitLine(page)
    case None => None
    case Some((first, rest)) =>
      match SplitLine(rest)
      case None => None
      case Some((second, tail)) =>
        match (Between(first, "[[!meta  title=\"", "\"]]"), Between(second, "[[!meta  date=\"", "\"]]"))
        case (Some(title), Some(date)) => Some((title, date, tail))
        case _ => None
  }

  /**
   A page opens with the title meta, whose value un-escapes to the post
   title, and the date meta; the rest is the normalised body and the tags.
   */
  lemma PageTextReadBack(caseMap: map<char, char>, item: Item)
    requires '\n' !in item.title && '\n' !in item.localDate
    ensures ReadPageHead(PageText(caseMap, item)).Some?
    ensures var (title, date, tail) := ReadPageHead(PageText(caseMap, item)).value;
            && UnescapeQuotes(title) == item.title
            && date == item.localDate
            && tail == NormaliseNewlines(item.body) + TagBlock(caseMap, item.categories)
  {
    var first := TitleMeta(item.title);
    var second := DateMeta(item.localDate);
    var tail := PageBody(caseMap, item);
    MetaOneLine(item.title, item.localDate);
    SplitLineAfter(first, second + "\n" + tail);
    SplitLineAfter(second, tail);
    BetweenWraps("[[!meta  title=\"", EscapeQuotes(item.title), "\"]]");
    BetweenWraps("[[!meta  date=\"", item.localDate, "\"]]");
    UnescapeEscapeQuotes(item.title);
  }

  lemma MetaOneLine(title: string, localDate: string)
    requires '\n' !in title && '\n' !in localDate
    ensures '\n' !in TitleMeta(title) && '\n' !in DateMeta(localDate)
  {
    EscapeNoNewline(title);
    assert '\n' !in "[[!meta  title=\"" && '\n' !in "\"]]" && '\n' !in "[[!meta  date=\"";
  }

  lemma {:induction false} EscapeNoNewline(s: string)
    requires '\n' !in s
    ensures '\n' !in EscapeQuotes(s)
    decreases |s|
  {
    if |s| > 0 {
      EscapeQuotesStep(s);
      EscapeNoNewline(s[1..]);
    }
  }
}
