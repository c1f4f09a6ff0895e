/**
 The two ASCII encodings the importer applies before it writes a payload:
 the custom `html_replace` error handler, which spells each non-ASCII
 character as a named HTML entity, and the standard `replace` handler,
 which writes `?` instead.
 */
module Entities {
  import opened Text

  /**
   How `html_replace` encodes one character: ASCII passes through, and any
   other character becomes `&name;` for its name in `names`
   (`htmlentitydefs.codepoint2name`). A character without a name raises
   KeyError; a name that is not ASCII itself cannot be encoded either.
   */
  function EncodeChar(names: map<int, string>, c: char): Option<string> {
    if IsAsciiChar(c) then Some([c])
    else if c as int in names && IsAscii(names[c as int]) then Some("&" + names[c as int] + ";")
    else None
  }

  /** `s.encode('ascii', 'html_replace')`: `None` when the encoding raises. */
  function HtmlEncode(names: map<int, string>, s: string): (r: Option<string>)
    ensures r.Some? ==> IsAscii(r.value)
    decreases |s|
  {
    if |s| == 0 then Some([])
    else
      match EncodeChar(names, s[0])
      case None => None
      case Some(head) =>
        match HtmlEncode(names, s[1..])
        case None => None
        case Some(tail) => Some(head + tail)
  }

  /** The encoding succeeds exactly when every character has an encoding of its own. */
  lemma {:induction false} HtmlEncodeSucceedsIff(names: map<int, string>, s: string)
    ensures HtmlEncode(names, s).Some? <==> forall k :: 0 <= k < |s| ==> EncodeChar(names, s[k]).Some?
    decreases |s|
  {
    if |s| > 0 {
      HtmlEncodeSucceedsIff(names, s[1..]);
      assert forall k :: 1 <= k < |s| ==> s[k] == s[1..][k - 1];
    }
  }

  /** ASCII text is its own encoding. */
  lemma {:induction false} HtmlEncodeAsciiIdentity(names: map<int, string>, s: string)
    requires IsAscii(s)
    ensures HtmlEncode(names, s) == Some(s)
    decreases |s|
  {
    if |s| > 0 {
      HtmlEncodeAsciiIdentity(names, s[1..]);
      assert s == [s[0]] + s[1..];
    }
  }

  /**
   The encoding works character by character: the encoding of a
   concatenation is the concatenation of the encodings, and it fails when
   either part does.
   */
  lemma {:induction false} HtmlEncodeConcat(names: map<int, string>, a: string, b: string)
    ensures HtmlEncode(names, a + b) ==
              if HtmlEncode(names, a).Some? && HtmlEncode(names, b).Some?
              then Some(HtmlEncode(names, a).value + HtmlEncode(names, b).value)
              else None
    decreases |a|
  {
    if |a| == 0 {
      assert a + b == b;
      assert HtmlEncode(names, a) == Some([]);
      if HtmlEncode(names, b).Some? {
        assert [] + HtmlEncode(names, b).value == HtmlEncode(names, b).value;
      }
    } else {
      HtmlEncodeConcat(names, a[1..], b);
      assert (a + b)[0] == a[0];
      assert (a + b)[1..] == a[1..] + b;
      var c := EncodeChar(names, a[0]);
      var rest := HtmlEncode(names, a[1..]);
      var restB := HtmlEncode(names, a[1..] + b);
      var eb := HtmlEncode(names, b);
      assert HtmlEncode(names, a) == if c.Some? && rest.Some? then Some(c.value + rest.value) else None;
      assert HtmlEncode(names, a + b) == if c.Some? && restB.Some? then Some(c.value + restB.value) else None;
      if c.Some? && rest.Some? && eb.Some? {
        assert c.value + (rest.value + eb.value) == (c.value + rest.value) + eb.value;
      }
    }
  }

  /**
   One character: ASCII stays as it is, a character whose entity name is
   ASCII becomes `&name;`, and any other character makes the encoding fail.
   With HtmlEncodeConcat this fixes the encoding of every text.
   */
  lemma HtmlEncodeSingle(names: map<int, string>, c: char)
    ensures IsAsciiChar(c) ==> HtmlEncode(names, [c]) == Some([c])
    ensures !IsAsciiChar(c) && c as int in names && IsAscii(names[c as int]) ==>
              HtmlEncode(names, [c]) == Some("&" + names[c as int] + ";")
    ensures !IsAsciiChar(c) && (c as int !in names || !IsAscii(names[c as int])) ==>
              HtmlEncode(names, [c]) == None
  {
    assert [c][1..] == [];
    assert HtmlEncode(names, []) == Some([]);
    if EncodeChar(names, c).Some? {
      assert EncodeChar(names, c).value + [] == EncodeChar(names, c).value;
    }
  }

  /**
   With the entity for U+00E9 (e-acute), `caf\U{E9}` becomes `caf&eacute;`;
   U+00E8, which the table does not name, cannot be encoded.
   */
  lemma HtmlEncodeExample()
    ensures HtmlEncode(map[0xE9 := "eacute"], "caf\U{E9}") == Some("caf&eacute;")
    ensures HtmlEncode(map[0xE9 := "eacute"], "\U{E8}") == None
  {
    var names := map[0xE9 := "eacute"];
    var name := "eacute";
    assert IsAscii(name) by {
      assert name[0] == 'e' && name[1] == 'a' && name[2] == 'c' && name[3] == 'u' && name[4] == 't' && name[5] == 'e';
    }
    assert '\U{E9}' as int == 0xE9 && !IsAsciiChar('\U{E9}');
    assert names['\U{E9}' as int] == name;
    assert "&" + name + ";" == "&eacute;";
    assert EncodeChar(names, '\U{E9}') == Some("&eacute;");
    assert HtmlEncode(names, "\U{E9}") == Some("&eacute;") by {
      var e := "\U{E9}";
      assert e[0] == '\U{E9}' && e[1..] == [];
      assert HtmlEncode(names, e[1..]) == Some([]);
      assert "&eacute;" + [] == "&eacute;";
    }
    HtmlEncodeAsciiIdentity(names, "caf");
    HtmlEncodeConcat(names, "caf", "\U{E9}");
    assert "caf\U{E9}" == "caf" + "\U{E9}";
    assert "caf" + "&eacute;" == "caf&eacute;";
    assert EncodeChar(names, '\U{E8}') == None;
  }

  /** `s.encode('ascii', 'replace')`: every non-ASCII character becomes one `?`. */
  function QuestionEncode(s: string): (r: string)
    ensures |r| == |s| && IsAscii(r)
    ensures forall k :: 0 <= k < |s| ==> r[k] == (if IsAsciiChar(s[k]) then s[k] else '?')
  {
    seq(|s|, k requires 0 <= k < |s| => if IsAsciiChar(s[k]) then s[k] else '?')
  }

  /** The payload is the record itself exactly when the record is all ASCII. */
  lemma QuestionEncodeIdentityIff(s: string)
    ensures QuestionEncode(s) == s <==> IsAscii(s)
  {
    var r := QuestionEncode(s);
    if IsAscii(s) {
      assert forall k :: 0 <= k < |s| ==> r[k] == s[k];
    } else {
      var k :| 0 <= k < |s| && !IsAsciiChar(s[k]);
      assert r[k] == '?' != s[k];
    }
  }

  /** The `replace` encoding works character by character, so it distributes over concatenation. */
  lemma QuestionEncodeConcat(a: string, b: string)
    ensures QuestionEncode(a + b) == QuestionEncode(a) + QuestionEncode(b)
  {
    var l, r := QuestionEncode(a + b), QuestionEncode(a) + QuestionEncode(b);
    forall k | 0 <= k < |a + b| ensures l[k] == r[k] {
      if k < |a| { assert (a + b)[k] == a[k]; } else { assert (a + b)[k] == b[k - |a|]; }
    }
  }
}
