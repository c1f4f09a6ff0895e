/**
 The git fast-import stream the importer prints: for each post a `commit`
 command with its committer line and message, followed by `M 644 inline`
 file changes, each carrying its content in a `data <count>` block. The
 reader here follows the grammar of git-fast-import(1), at the level of
 characters: a `data` block is its count of characters, optionally followed
 by one line feed. Git counts bytes; the two agree on ASCII payloads.
 */
module FastImport {
  import opened Text

  datatype Command =
    | Commit(branch: string, name: string, email: string, when: int, messageLength: nat, message: string)
    | FileModify(path: string, dataLength: nat, data: string)

  /** Why the importer stops part-way: an entity-less character in a post, or a comment date `strptime` rejects. */
  datatype Failure = Unencodable | UndecodableDirectory | BadDate(text: string)

  /** What has been printed when the importer finishes, and the failure that ended it early, if any. */
  datatype Emission = Emission(commands: seq<Command>, failure: Option<Failure>)

  /** The `data` header counts exactly the characters of the payload that follows it. */
  predicate Framed(c: Command) {
    match c
    case Commit(_, _, _, _, n, message) => n == |message|
    case FileModify(_, n, data) => n == |data|
  }

  /**
   What a command needs for its header lines to read back: the one-line
   fields hold no line feed, the committer name no `<` and the e-mail no `>`.
   */
  predicate HeaderSafe(c: Command) {
    match c
    case Commit(branch, name, email, _, _, _) =>
      '\n' !in branch && '\n' !in name && '\n' !in email && '<' !in name && '>' !in email
    case FileModify(path, _, _) => '\n' !in path
  }

  /** A run of commands the character-level reader reads back as printed. */
  predicate Readable(cmds: seq<Command>) {
    forall k :: 0 <= k < |cmds| ==> Framed(cmds[k]) && HeaderSafe(cmds[k])
  }

  lemma ReadableConcat(a: seq<Command>, b: seq<Command>)
    requires Readable(a) && Readable(b)
    ensures Readable(a + b)
  {
    forall k | 0 <= k < |a + b| ensures Framed((a + b)[k]) && HeaderSafe((a + b)[k]) {
      if k < |a| { assert (a + b)[k] == a[k]; } else { assert (a + b)[k] == b[k - |a|]; }
    }
  }

  lemma ReadableTail(cmds: seq<Command>)
    requires |cmds| > 0 && Readable(cmds)
    ensures Framed(cmds[0]) && HeaderSafe(cmds[0]) && Readable(cmds[1..])
  {
    forall k | 0 <= k < |cmds| - 1 ensures Framed(cmds[1..][k]) && HeaderSafe(cmds[1..][k]) {
      assert cmds[1..][k] == cmds[k + 1];
    }
  }

  lemma ReadableCons(cmds: seq<Command>)
    requires |cmds| > 0 && Framed(cmds[0]) && HeaderSafe(cmds[0]) && Readable(cmds[1..])
    ensures Readable(cmds)
  {
    forall k | 1 <= k < |cmds| ensures Framed(cmds[k]) && HeaderSafe(cmds[k]) {
      assert cmds[k] == cmds[1..][k - 1];
    }
  }

  /** The text a command's `data` block carries: the commit message or the file content. */
  function Payload(c: Command): string {
    match c
    case Commit(_, _, _, _, _, message) => message
    case FileModify(_, _, data) => data
  }

  /**
   Every payload is ASCII, so the character counts in the `data` headers are
   also the byte counts git reads.
   */
  predicate AsciiPayloads(cmds: seq<Command>) {
    forall k :: 0 <= k < |cmds| ==> IsAscii(Payload(cmds[k]))
  }

  lemma AsciiPayloadsCons(cmds: seq<Command>)
    requires |cmds| > 0 && IsAscii(Payload(cmds[0])) && AsciiPayloads(cmds[1..])
    ensures AsciiPayloads(cmds)
  {
    forall k | 1 <= k < |cmds| ensures IsAscii(Payload(cmds[k])) {
      assert cmds[k] == cmds[1..][k - 1];
    }
  }

  lemma AsciiPayloadsConcat(a: seq<Command>, b: seq<Command>)
    requires AsciiPayloads(a) && AsciiPayloads(b)
    ensures AsciiPayloads(a + b)
  {
    forall k | 0 <= k < |a + b| ensures IsAscii(Payload((a + b)[k])) {
      if k < |a| { assert (a + b)[k] == a[k]; } else { assert (a + b)[k] == b[k - |a|]; }
    }
  }

  // ---------------------------------------------------------------------
  // Printing

  /** `data <n>` on a line of its own, the payload, and the line feed `print` adds after it. */
  function DataBlock(n: nat, payload: string): string {
    "data " + NatToString(n) + "\n" + (payload + "\n")
  }

  /** Line 92, `committer <name> <<email>> <when> +0000`, with `%d` for the time. */
  function CommitterLine(name: string, email: string, when: int): string {
    "committer " + Identity(name, email, when) + " +0000"
  }

  /** `<name> <<email>> <when>`, the middle of the committer line. */
  function Identity(name: string, email: string, when: int): string {
    (name + " ") + "<" + AddressAndTime(email, when)
  }

  function AddressAndTime(email: string, when: int): string {
    email + ">" + (" " + IntToString(when))
  }

  /** Lines 91-94: the branch, the committer, and the commit message as a data block. */
  function CommitText(branch: string, name: string, email: string, when: int, n: nat, message: string): string {
    ("commit refs/heads/" + branch) + "\n" + (CommitterLine(name, email, when) + "\n" + DataBlock(n, message))
  }

  /** Lines 95-97 and 123-126: a file path and its content as a data block. */
  function FileModifyText(path: string, n: nat, data: string): string {
    ("M 644 inline " + path) + "\n" + DataBlock(n, data)
  }

  function CommandText(c: Command): string {
    match c
    case Commit(branch, name, email, when, n, message) => CommitText(branch, name, email, when, n, message)
    case FileModify(path, n, data) => FileModifyText(path, n, data)
  }

  function StreamText(cmds: seq<Command>): string
    decreases |cmds|
  {
    if |cmds| == 0 then [] else CommandText(cmds[0]) + StreamText(cmds[1..])
  }

  /** Printing a run of commands after another prints the two runs one after the other. */
  lemma {:induction false} StreamTextConcat(a: seq<Command>, b: seq<Command>)
    ensures StreamText(a + b) == StreamText(a) + StreamText(b)
    decreases |a|
  {
    if |a| == 0 {
      assert a + b == b;
      assert StreamText(a) == [];
    } else {
      var h := CommandText(a[0]);
      assert StreamText(a + b) == h + StreamText(a[1..] + b) by {
        assert (a + b)[0] == a[0];
        assert (a + b)[1..] == a[1..] + b;
      }
      StreamTextConcat(a[1..], b);
      var x, y := StreamText(a[1..]), StreamText(b);
      assert h + (x + y) == (h + x) + y;
    }
  }

  // ---------------------------------------------------------------------
  // Reading

  /** A `data` block: the count, the payload, and the text after the optional line feed. */
  function ParseData(s: string): (r: Option<(nat, string, string)>)
    ensures r.Some? ==> |r.value.2| < |s|
  {
    match SplitLine(s)
    case None => None
    case Some((line, rest)) =>
      if !HasPrefix(line, "data ") then None
      else
        match ParseNat(line[5..])
        case None => None
        case Some(n) =>
          if n > |rest| then None
          else
            var after := rest[n..];
            Some((n, rest[..n], if |after| > 0 && after[0] == '\n' then after[1..] else after))
  }

  /** The committer line: name, e-mail and time. */
  function ParseCommitter(line: string): Option<(string, string, int)> {
    match Between(line, "committer ", " +0000")
    case None => None
    case Some(identity) => ParseIdentity(identity)
  }

  /** `<name> <<email>> <when>`: the name runs up to the space before the first `<`. */
  function ParseIdentity(identity: string): Option<(string, string, int)> {
    var i := FindFirst(identity, '<');
    if i == |identity| || i == 0 || identity[i - 1] != ' ' then None
    else
      match ParseAddressAndTime(identity[i + 1..])
      case None => None
      case Some((email, when)) => Some((identity[..i - 1], email, when))
  }

  /** `<email>> <when>`: the e-mail runs up to the first `>`. */
  function ParseAddressAndTime(s: string): Option<(string, int)> {
    var j := FindFirst(s, '>');
    if j + 1 >= |s| || s[j + 1] != ' ' then None
    else
      match ParseInt(s[j + 2..])
      case None => None
      case Some(when) => Some((s[..j], when))
  }

  function ParseCommand(s: string): (r: Option<(Command, string)>)
    ensures r.Some? ==> |r.value.1| < |s|
  {
    match SplitLine(s)
    case None => None
    case Some((line, rest)) =>
      if HasPrefix(line, "commit refs/heads/") then
        match SplitLine(rest)
        case None => None
        case Some((committer, afterCommitter)) =>
          match ParseCommitter(committer)
          case None => None
          case Some((name, email, when)) =>
            match ParseData(afterCommitter)
            case None => None
            case Some((n, message, after)) =>
              Some((Commit(line[18..], name, email, when, n, message), after))
      else if HasPrefix(line, "M 644 inline ") then
        match ParseData(rest)
        case None => None
        case Some((n, data, after)) => Some((FileModify(line[13..], n, data), after))
      else None
  }

  function ParseStream(s: string): Option<seq<Command>>
    decreases |s|
  {
    if |s| == 0 then Some([])
    else
      match ParseCommand(s)
      case None => None
      case Some((c, rest)) =>
        match ParseStream(rest)
        case None => None
        case Some(cs) => Some([c] + cs)
  }

  // ---------------------------------------------------------------------
  // Reading back what was printed

  lemma ParseDataBlock(payload: string, more: string)
    ensures ParseData(DataBlock(|payload|, payload) + more) == Some((|payload|, payload, more))
  {
    var n := |payload|;
    var line := "data " + NatToString(n);
    var rest := payload + "\n" + more;
    DataLineText(n);
    assert DataBlock(n, payload) + more == line + "\n" + rest;
    SplitLineAfter(line, rest);
    ParseDataAfterLine(DataBlock(n, payload) + more, line, payload, more);
  }

  /** The header line `data <n>` is one line, and its count reads back. */
  lemma DataLineText(n: nat)
    ensures '\n' !in "data " + NatToString(n)
    ensures HasPrefix("data " + NatToString(n), "data ")
    ensures ParseNat(("data " + NatToString(n))[5..]) == Some(n)
  {
    var numeral := NatToString(n);
    assert forall k :: 0 <= k < |numeral| ==> IsDigit(numeral[k]);
    HasPrefixOf("data ", numeral);
    NatToStringRoundTrip(n);
  }

  lemma ParseDataAfterLine(s: string, line: string, payload: string, more: string)
    requires SplitLine(s) == Some((line, payload + "\n" + more))
    requires HasPrefix(line, "data ") && ParseNat(line[5..]) == Some(|payload|)
    ensures ParseData(s) == Some((|payload|, payload, more))
  {
    var rest := payload + "\n" + more;
    assert rest[..|payload|] == payload;
    assert rest[|payload|..] == "\n" + more;
  }

  lemma ParseAddressAndTimeText(email: string, when: int)
    requires '>' !in email
    ensures ParseAddressAndTime(AddressAndTime(email, when)) == Some((email, when))
  {
    var numeral := IntToString(when);
    var s := AddressAndTime(email, when);
    FindFirstAfter(email, '>', " " + numeral);
    assert s[|email| + 1] == ' ' && s[..|email|] == email && s[|email| + 2..] == numeral;
    IntToStringRoundTrip(when);
  }

  lemma ParseIdentityText(name: string, email: string, when: int)
    requires '<' !in name && '>' !in email
    ensures ParseIdentity(Identity(name, email, when)) == Some((name, email, when))
  {
    var afterName := AddressAndTime(email, when);
    var identity := Identity(name, email, when);
    assert '<' !in name + " ";
    FindFirstAfter(name + " ", '<', afterName);
    assert identity[|name|] == ' ' && identity[..|name|] == name && identity[|name| + 2..] == afterName;
    ParseAddressAndTimeText(email, when);
  }

  lemma ParseCommitterLine(name: string, email: string, when: int)
    requires '<' !in name && '>' !in email
    ensures ParseCommitter(CommitterLine(name, email, when)) == Some((name, email, when))
  {
    BetweenWraps("committer ", Identity(name, email, when), " +0000");
    ParseIdentityText(name, email, when);
  }

  lemma CommitterLineOneLine(name: string, email: string, when: int)
    requires '\n' !in name && '\n' !in email
    ensures '\n' !in CommitterLine(name, email, when)
  {
    assert '\n' !in IntToString(when);
  }

  lemma ParseCommitText(branch: string, name: string, email: string, when: int, message: string, more: string)
    requires '\n' !in branch && '\n' !in name && '\n' !in email && '<' !in name && '>' !in email
    ensures ParseCommand(CommitText(branch, name, email, when, |message|, message) + more)
              == Some((Commit(branch, name, email, when, |message|, message), more))
  {
    var first := "commit refs/heads/" + branch;
    var second := CommitterLine(name, email, when);
    var block := DataBlock(|message|, message) + more;
    CommitterLineOneLine(name, email, when);
    assert SplitLine(CommitText(branch, name, email, when, |message|, message) + more)
             == Some((first, second + "\n" + block)) by {
      assert CommitText(branch, name, email, when, |message|, message) + more == first + "\n" + (second + "\n" + block);
      SplitLineAfter(first, second + "\n" + block);
    }
    SplitLineAfter(second, block);
    ParseCommitterLine(name, email, when);
    ParseDataBlock(message, more);
    HasPrefixOf("commit refs/heads/", branch);
  }

  lemma ParseFileModifyText(path: string, data: string, more: string)
    requires '\n' !in path
    ensures ParseCommand(FileModifyText(path, |data|, data) + more) == Some((FileModify(path, |data|, data), more))
  {
    var first := "M 644 inline " + path;
    var block := DataBlock(|data|, data) + more;
    assert SplitLine(FileModifyText(path, |data|, data) + more) == Some((first, block)) by {
      assert FileModifyText(path, |data|, data) + more == first + "\n" + block;
      SplitLineAfter(first, block);
    }
    ParseDataBlock(data, more);
    assert !HasPrefix(first, "commit refs/heads/") by {
      var commit := "commit refs/heads/";
      if |first| >= |commit| {
        assert first[..|commit|][0] == 'M' != commit[0];
      }
    }
    HasPrefixOf("M 644 inline ", path);
  }

  /** Every framed command with safe header lines reads back as itself. */
  lemma ParseCommandText(c: Command, more: string)
    requires Framed(c) && HeaderSafe(c)
    ensures ParseCommand(CommandText(c) + more) == Some((c, more))
  {
    match c
    case Commit(branch, name, email, when, n, message) =>
      ParseCommitText(branch, name, email, when, message, more);
    case FileModify(path, n, data) =>
      ParseFileModifyText(path, data, more);
  }

  /** A stream reads back when its first command and the rest do. */
  lemma ParseStreamStep(cmds: seq<Command>)
    requires |cmds| > 0 && Framed(cmds[0]) && HeaderSafe(cmds[0])
    requires ParseStream(StreamText(cmds[1..])) == Some(cmds[1..])
    ensures ParseStream(StreamText(cmds)) == Some(cmds)
  {
    var rest := StreamText(cmds[1..]);
    ParseCommandText(cmds[0], rest);
    ParseStreamCons(StreamText(cmds), cmds[0], rest, cmds[1..]);
    assert [cmds[0]] + cmds[1..] == cmds;
  }

  lemma ParseStreamCons(s: string, c: Command, rest: string, cs: seq<Command>)
    requires ParseCommand(s) == Some((c, rest)) && ParseStream(rest) == Some(cs)
    ensures ParseStream(s) == Some([c] + cs)
  {
  }

  /**
   The reader of this module, which counts characters, reads back exactly
   the commands that were printed, in order, when every `data` header
   counts its payload: a payload may contain anything,
   line feeds and text that looks like a command included.
   */
  lemma {:induction false} ParseStreamText(cmds: seq<Command>)
    requires Readable(cmds)
    ensures ParseStream(StreamText(cmds)) == Some(cmds)
    decreases |cmds|
  {
    if |cmds| > 0 {
      ReadableTail(cmds);
      ParseStreamText(cmds[1..]);
      ParseStreamStep(cmds);
    }
  }
}
