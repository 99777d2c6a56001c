/** `get_table_name`: a file path becomes a table name made only of ASCII
    letters, digits and underscores, with the fixed renaming `chat` to
    `conversations`. */
module TableNames {
  import opened Base
  import opened Text

  const ChatTable := "conversations"

  /** `TABLE_MAPPING`. */
  const TableMapping: map<string, string> := map["chat" := ChatTable]

  /** The last position of `c` in `s`. */
  function LastIndex(s: string, c: char): (r: Option<nat>)
    ensures r.Some? ==> r.value < |s| && s[r.value] == c && forall k :: r.value < k < |s| ==> s[k] != c
    ensures r.None? ==> forall k :: 0 <= k < |s| ==> s[k] != c
  {
    if s == [] then None
    else if s[|s| - 1] == c then Some(|s| - 1)
    else LastIndex(s[..|s| - 1], c)
  }

  /** `os.path.basename` with `/` as the separator. */
  function Basename(path: string): (b: string)
    ensures forall k :: 0 <= k < |b| ==> b[k] != '/'
  {
    match LastIndex(path, '/')
    case None => path
    case Some(i) => path[i + 1..]
  }

  predicate AllDots(s: string)
  {
    forall k :: 0 <= k < |s| ==> s[k] == '.'
  }

  /** `os.path.splitext(base)[0]`: drops the text from the last dot, unless
      only dots precede it (a leading-dot name has no extension). */
  function Stem(base: string): string
  {
    match LastIndex(base, '.')
    case None => base
    case Some(d) => if AllDots(base[..d]) then base else base[..d]
  }

  /** Membership in `string.ascii_letters + string.digits + "_"`. */
  predicate IsNameChar(c: char)
  {
    ('a' <= c <= 'z') || ('A' <= c <= 'Z') || ('0' <= c <= '9') || c == '_'
  }

  function Sanitize(s: string): (r: string)
    ensures |r| == |s|
    ensures forall k :: 0 <= k < |s| ==> IsNameChar(r[k])
    ensures forall k :: 0 <= k < |s| && IsNameChar(s[k]) ==> r[k] == s[k]
    ensures forall k :: 0 <= k < |s| && !IsNameChar(s[k]) ==> r[k] == '_'
  {
    seq(|s|, k requires 0 <= k < |s| => if IsNameChar(s[k]) then s[k] else '_')
  }

  /** `t.strip("_")`. */
  function Strip(t: string): string
  {
    RStrip(LStrip(t, '_'), '_')
  }

  /** `strip` cuts only underscores, from both ends, and leaves neither end
      an underscore. */
  lemma StripShape(t: string)
    ensures var r := Strip(t);
            var i := |t| - |LStrip(t, '_')|;
            0 <= i <= |t| - |r| && r == t[i..i + |r|] &&
            (forall k :: 0 <= k < i ==> t[k] == '_') &&
            (forall k :: i + |r| <= k < |t| ==> t[k] == '_') &&
            (r == [] || (r[0] != '_' && r[|r| - 1] != '_'))
  {
    var l := LStrip(t, '_');
    var r := RStrip(l, '_');
    var i := |t| - |l|;
    assert l == t[i..];
    assert r == t[i..i + |r|] by {
      assert r == l[..|r|];
      assert t[i..][..|r|] == t[i..i + |r|];
    }
    forall k | i + |r| <= k < |t| ensures t[k] == '_' {
      assert l[k - i] == '_';
      assert t[k] == l[k - i];
    }
  }

  /** Only name characters, and no underscore at either end. */
  predicate ValidName(r: string)
  {
    (forall k :: 0 <= k < |r| ==> IsNameChar(r[k])) && (r == [] || (r[0] != '_' && r[|r| - 1] != '_'))
  }

  /** Stripping a string of name characters gives a valid name. */
  lemma StripValid(t: string)
    requires forall k :: 0 <= k < |t| ==> IsNameChar(t[k])
    ensures ValidName(Strip(t))
  {
    var r := Strip(t);
    var i := |t| - |LStrip(t, '_')|;
    StripShape(t);
    forall k | 0 <= k < |r| ensures IsNameChar(r[k]) {
      assert r[k] == t[i + k];
    }
  }

  /** The sanitized stem before the mapping is applied. */
  function SuggestedName(path: string): (r: string)
    ensures ValidName(r)
  {
    var t := Sanitize(Stem(Basename(path)));
    StripValid(t);
    Strip(t)
  }

  /** Every name `TABLE_MAPPING` maps to is itself a valid name. */
  lemma MappedNamesValid()
    ensures forall n :: n in TableMapping ==> ValidName(TableMapping[n])
  {
    assert TableMapping["chat"] == ChatTable;
    forall k | 0 <= k < |ChatTable| ensures IsNameChar(ChatTable[k]) {
      assert 'a' <= ChatTable[k] <= 'z';
    }
  }

  /** `get_table_name`. */
  function TableName(path: string): (r: string)
    ensures ValidName(r)
    ensures SuggestedName(path) in TableMapping ==> r == TableMapping[SuggestedName(path)]
    ensures SuggestedName(path) !in TableMapping ==> r == SuggestedName(path)
  {
    var name := SuggestedName(path);
    MappedNamesValid();
    if name in TableMapping then TableMapping[name] else name
  }

  /** An exported `chat.html` lands in the conversations table. */
  lemma ChatHtmlIsConversations()
    ensures TableName("data/chat.html") == ChatTable
  {
    var p := "data/chat.html";
    assert Stem(Basename(p)) == "chat" by {
      ChatHtmlBasename();
      ChatHtmlStem();
    }
    assert SuggestedName(p) == "chat" by {
      ChatSanitized();
    }
    assert "chat" in TableMapping && TableMapping["chat"] == ChatTable;
  }

  lemma ChatHtmlBasename()
    ensures Basename("data/chat.html") == "chat.html"
  {
    var p := "data/chat.html";
    assert p[4] == '/';
    assert forall k :: 4 < k < |p| ==> p[k] != '/' by {
      forall k | 4 < k < |p| ensures p[k] != '/' {
        assert p[k] in "chat.html";
      }
    }
    assert LastIndex(p, '/') == Some(4);
    assert p[5..] == "chat.html";
  }

  lemma ChatHtmlStem()
    ensures Stem("chat.html") == "chat"
  {
    var b := "chat.html";
    assert b[4] == '.';
    assert forall k :: 4 < k < |b| ==> b[k] != '.' by {
      forall k | 4 < k < |b| ensures b[k] != '.' {
        assert b[k] in "html";
      }
    }
    assert LastIndex(b, '.') == Some(4);
    assert !AllDots(b[..4]) by { assert b[0] == 'c'; }
    assert b[..4] == "chat";
  }

  lemma ChatSanitized()
    ensures Strip(Sanitize("chat")) == "chat"
  {
    var c := "chat";
    assert forall k :: 0 <= k < |c| ==> IsNameChar(c[k]) by {
      forall k | 0 <= k < |c| ensures IsNameChar(c[k]) {
        assert c[k] in "chat";
      }
    }
    assert Sanitize(c) == c;
    assert LStrip(c, '_') == c;
    assert RStrip(c, '_') == c;
  }
}
