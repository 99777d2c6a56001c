/** `get_conversation_messages`: the transcript of a conversation is read
    by walking parent links from its current node back to the root, keeping
    the text messages met on the way, and reversing the list. */
module Transcript {
  import opened Base
  import opened Json
  import opened Text

  /** A conversation row: its `mapping` once parsed (`None` when the column
      is missing or empty) and its `current_node` (`Null` for SQL NULL). */
  datatype Conversation = Conversation(mapping: Option<map<string, Value>>, currentNode: Value)

  /** One entry of the transcript: node id, author role, creation time and
      the first part of the text. */
  datatype Entry = Entry(id: string, author: Value, timestamp: Value, text: Value)

  /** Why the walk raised: a node id missing from the mapping (`.get` on
      `None`), or a node whose fields do not have the expected shape. */
  datatype Fault = Dangling(missing: Value) | Malformed(at: string)

  /** `d.get(key)` on a JSON object. */
  function Get(fields: seq<(string, Value)>, key: string): (r: Option<Value>)
    ensures r.Some? <==> key in Keys(fields)
    ensures r.Some? ==> (key, r.value) in fields
  {
    if fields == [] then None
    else if fields[0].0 == key then Some(fields[0].1)
    else
      var r := Get(fields[1..], key);
      assert Keys(fields) == [fields[0].0] + Keys(fields[1..]);
      r
  }

  /** `mapping.get(current_node)`: only a string can be a key. */
  function NodeAt(m: map<string, Value>, cur: Value): Option<Value>
  {
    if cur.Str? && cur.s in m then Some(m[cur.s]) else None
  }

  /** Python `key in v`: a key test on a dict, a substring test on a
      string, an element test on a list; `None` when it raises (a number,
      a bool or `None` on the right of `in`). */
  function In(key: string, v: Value): (r: Option<bool>)
    ensures r.Some? <==> v.Obj? || v.Str? || v.Arr?
    ensures v.Obj? ==> r == Some(Get(v.fields, key).Some?)
    ensures v.Str? ==> r == Some(exists i :: SliceAt(key, v.s, i))
  {
    match v
    case Obj(fields) => Some(key in Keys(fields))
    case Str(s) => OccursAt(key, s); Some(Occurs(key, s))
    case Arr(items) => Some(Str(key) in items)
    case _ => None
  }

  /** `parts[0]`: the first item of a list, or the first character of a
      string; `None` when it raises (empty, a dict, a scalar). */
  function FirstPart(parts: Value): Option<Value>
  {
    match parts
    case Arr(items) => if items == [] then None else Some(items[0])
    case Str(s) => if s == [] then None else Some(Str([s[0]]))
    case _ => None
  }

  /** `node` is a text message whose entry is `e`: its message has an
      author with a role and a content of type `text` with non-empty
      parts, the first of which (the first item of a list, the first
      character of a string) is the text. */
  predicate TextMessage(id: string, node: Value, e: Entry)
  {
    && node.Obj? && Get(node.fields, "message").Some?
    && var msg := Get(node.fields, "message").value;
       && msg.Obj? && Get(msg.fields, "author").Some? && Get(msg.fields, "content").Some?
       && var author := Get(msg.fields, "author").value;
          var content := Get(msg.fields, "content").value;
          && author.Obj? && Get(author.fields, "role") == Some(e.author)
          && content.Obj? && Get(content.fields, "content_type") == Some(Str("text"))
          && Get(content.fields, "parts").Some?
          && var parts := Get(content.fields, "parts").value;
             && (|| (parts.Arr? && parts.items != [] && e.text == parts.items[0])
                 || (parts.Str? && parts.s != [] && e.text == Str([parts.s[0]])))
             && e.id == id
             && e.timestamp == (if Get(msg.fields, "create_time").Some? then Get(msg.fields, "create_time").value else Int(0))
  }

  /** The entry a present node contributes, if any. */
  function EntryOf(id: string, node: Value): Result<Option<Entry>, Fault>
  {
    if !node.Obj? || node.fields == [] then Success(None)
    else match Get(node.fields, "message")
      case None => Success(None)
      case Some(msg) => if !Truthy(msg) then Success(None) else MessageEntry(id, msg)
  }

  /** A truthy message: `"author" in message and "content" in message`,
      then `message["author"]["role"]`, which raises unless both are dicts
      and the role is there. */
  function MessageEntry(id: string, msg: Value): Result<Option<Entry>, Fault>
  {
    if In("author", msg).None? then Failure(Malformed(id))
    else if !In("author", msg).value || !In("content", msg).value then Success(None)
    else if !msg.Obj? then Failure(Malformed(id))
    else
      var author := Get(msg.fields, "author").value;
      if !author.Obj? || Get(author.fields, "role").None? then Failure(Malformed(id))
      else
        var timestamp := match Get(msg.fields, "create_time") case Some(t) => t case None => Int(0);
        ContentEntry(id, Get(author.fields, "role").value, timestamp, Get(msg.fields, "content").value)
  }

  /** The content of a message with an author:
      `"content_type" in content and content["content_type"] == "text" and
      "parts" in content`, then `content["parts"][0]`. */
  function ContentEntry(id: string, role: Value, timestamp: Value, content: Value): Result<Option<Entry>, Fault>
  {
    if In("content_type", content).None? then Failure(Malformed(id))
    else if !In("content_type", content).value then Success(None)
    else if !content.Obj? then Failure(Malformed(id))
    else if Get(content.fields, "content_type") != Some(Str("text")) || Get(content.fields, "parts").None? then Success(None)
    else match FirstPart(Get(content.fields, "parts").value)
      case None => Failure(Malformed(id))
      case Some(text) => Success(Some(Entry(id, role, timestamp, text)))
  }

  /** Only text messages contribute. */
  lemma EntryOfIsTextMessage(id: string, node: Value)
    requires EntryOf(id, node).Success? && EntryOf(id, node).value.Some?
    ensures TextMessage(id, node, EntryOf(id, node).value.value)
  {
    var msg := Get(node.fields, "message").value;
    assert msg.Obj?;
    var author := Get(msg.fields, "author").value;
    var content := Get(msg.fields, "content").value;
    var timestamp := match Get(msg.fields, "create_time") case Some(t) => t case None => Int(0);
    assert MessageEntry(id, msg) == ContentEntry(id, Get(author.fields, "role").value, timestamp, content);
    assert content.Obj?;
  }

  lemma ContentIsEntry(id: string, role: Value, timestamp: Value, content: Value, text: Value)
    requires content.Obj? && Get(content.fields, "content_type") == Some(Str("text"))
    requires Get(content.fields, "parts").Some? && FirstPart(Get(content.fields, "parts").value) == Some(text)
    ensures ContentEntry(id, role, timestamp, content) == Success(Some(Entry(id, role, timestamp, text)))
  {
  }

  lemma MessageIsEntry(id: string, msg: Value, role: Value, timestamp: Value)
    requires msg.Obj? && Get(msg.fields, "author").Some? && Get(msg.fields, "content").Some?
    requires Get(msg.fields, "author").value.Obj? && Get(Get(msg.fields, "author").value.fields, "role") == Some(role)
    requires timestamp == (if Get(msg.fields, "create_time").Some? then Get(msg.fields, "create_time").value else Int(0))
    ensures MessageEntry(id, msg) == ContentEntry(id, role, timestamp, Get(msg.fields, "content").value)
  {
  }

  /** Every text message contributes, with its role, its creation time (0
      when absent) and its first part. */
  lemma TextMessageIsEntry(id: string, node: Value, e: Entry)
    requires TextMessage(id, node, e)
    ensures EntryOf(id, node) == Success(Some(e))
  {
    var msg := Get(node.fields, "message").value;
    assert "message" in Keys(node.fields);
    assert "author" in Keys(msg.fields);
    var content := Get(msg.fields, "content").value;
    var parts := Get(content.fields, "parts").value;
    ContentIsEntry(id, e.author, e.timestamp, content, e.text);
    MessageIsEntry(id, msg, e.author, e.timestamp);
    assert e == Entry(id, e.author, e.timestamp, e.text);
    assert node.fields != [] && Truthy(msg);
    assert EntryOf(id, node) == MessageEntry(id, msg);
  }

  /** A message that is a string or a list never contributes: it is
      skipped unless both `"author"` and `"content"` occur in it (as
      substrings of a string, as items of a list), and then
      `message["author"]` raises. */
  lemma SequenceMessageSkippedOrRaises(id: string, msg: Value)
    requires msg.Str? || msg.Arr?
    ensures MessageEntry(id, msg).Success? ==> MessageEntry(id, msg).value.None?
    ensures msg.Str? ==>
              (MessageEntry(id, msg).Failure? <==>
               (exists i :: SliceAt("author", msg.s, i)) && (exists i :: SliceAt("content", msg.s, i)))
    ensures msg.Arr? ==>
              (MessageEntry(id, msg).Failure? <==> Str("author") in msg.items && Str("content") in msg.items)
  {
  }

  /** A content that is a string or a list never contributes: it is skipped
      unless `"content_type"` occurs in it, and then
      `content["content_type"]` raises; a content of any other non-dict
      type raises at the `in` test. */
  lemma NonDictContentSkippedOrRaises(id: string, role: Value, timestamp: Value, content: Value)
    requires !content.Obj?
    ensures ContentEntry(id, role, timestamp, content).Success? ==> ContentEntry(id, role, timestamp, content).value.None?
    ensures content.Str? ==>
              (ContentEntry(id, role, timestamp, content).Failure? <==> exists i :: SliceAt("content_type", content.s, i))
    ensures content.Arr? ==>
              (ContentEntry(id, role, timestamp, content).Failure? <==> Str("content_type") in content.items)
    ensures !content.Str? && !content.Arr? ==> ContentEntry(id, role, timestamp, content).Failure?
  {
  }

  /** One turn of the loop at a non-null node: its entry, then
      `node.get("parent")`, which raises when the node is missing. */
  function Step(m: map<string, Value>, cur: Value): Result<(Option<Entry>, Value), Fault>
    requires cur != Null
  {
    match NodeAt(m, cur)
    case None => Failure(Dangling(cur))
    case Some(node) =>
      match EntryOf(cur.s, node)
      case Failure(f) => Failure(f)
      case Success(e) =>
        if !node.Obj? then Failure(Malformed(cur.s))
        else Success((e, match Get(node.fields, "parent") case Some(p) => p case None => Null))
  }

  /** The walk from `cur` stops (at `None` or by raising) within `n` turns. */
  predicate ChainEnds(m: map<string, Value>, cur: Value, n: nat)
    decreases n
  {
    cur == Null || (n > 0 && match Step(m, cur)
                             case Failure(_) => true
                             case Success((_, next)) => ChainEnds(m, next, n - 1))
  }

  lemma {:induction false} ChainEndsMonotone(m: map<string, Value>, cur: Value, n: nat, n': nat)
    requires ChainEnds(m, cur, n) && n <= n'
    ensures ChainEnds(m, cur, n')
    decreases n
  {
    if cur != Null && Step(m, cur).Success? {
      ChainEndsMonotone(m, Step(m, cur).value.1, n - 1, n' - 1);
    }
  }

  /** A walk that ends and takes a step ends from the next node, one turn sooner. */
  lemma ChainEndsNext(m: map<string, Value>, cur: Value, n: nat)
    requires cur != Null && ChainEnds(m, cur, n) && Step(m, cur).Success?
    ensures n > 0 && ChainEnds(m, Step(m, cur).value.1, n - 1)
  {
  }

  /** What one node adds to the transcript: its entry, if it has one. */
  function Kept(e: Option<Entry>): seq<Entry>
  {
    if e.Some? then [e.value] else []
  }

  /** The entries met from `cur` on, nearest first, or the fault raised. */
  function Collect(m: map<string, Value>, cur: Value, n: nat): Result<seq<Entry>, Fault>
    requires ChainEnds(m, cur, n)
    decreases n
  {
    if cur == Null then Success([])
    else match Step(m, cur)
      case Failure(f) => Failure(f)
      case Success((e, next)) =>
        ChainEndsNext(m, cur, n);
        match Collect(m, next, n - 1)
        case Failure(f) => Failure(f)
        case Success(rest) => Success(Kept(e) + rest)
  }

  /** `Collect` continued from a prefix of already collected entries. */
  function Prefixed(ms: seq<Entry>, r: Result<seq<Entry>, Fault>): Result<seq<Entry>, Fault>
  {
    match r
    case Failure(f) => Failure(f)
    case Success(rest) => Success(ms + rest)
  }

  /** One turn of the walk: the node's entry comes before the rest. */
  lemma CollectStep(m: map<string, Value>, cur: Value, n: nat, ms: seq<Entry>)
    requires cur != Null && ChainEnds(m, cur, n) && Step(m, cur).Success?
    ensures n > 0 && ChainEnds(m, Step(m, cur).value.1, n - 1)
    ensures Prefixed(ms, Collect(m, cur, n)) ==
            Prefixed(ms + Kept(Step(m, cur).value.0), Collect(m, Step(m, cur).value.1, n - 1))
  {
    ChainEndsNext(m, cur, n);
    var e := Step(m, cur).value.0;
    var tail := Collect(m, Step(m, cur).value.1, n - 1);
    assert Collect(m, cur, n) == Prefixed(Kept(e), tail);
    if tail.Success? {
      assert ms + (Kept(e) + tail.value) == (ms + Kept(e)) + tail.value;
    }
  }

  /** The result does not depend on the bound. */
  lemma {:induction false} CollectBoundIrrelevant(m: map<string, Value>, cur: Value, n: nat, n': nat)
    requires ChainEnds(m, cur, n) && ChainEnds(m, cur, n')
    ensures Collect(m, cur, n) == Collect(m, cur, n')
    decreases n
  {
    if cur != Null && Step(m, cur).Success? {
      CollectBoundIrrelevant(m, Step(m, cur).value.1, n - 1, n' - 1);
    }
  }

  /** The node ids the walk visits, `cur` first, up to the root or the
      node where it raised. */
  function Chain(m: map<string, Value>, cur: Value, n: nat): (c: seq<Value>)
    requires ChainEnds(m, cur, n)
    ensures cur == Null <==> c == []
    ensures c != [] ==> c[0] == cur
    decreases n
  {
    if cur == Null then []
    else match Step(m, cur)
      case Failure(_) => [cur]
      case Success((_, next)) =>
        ChainEndsNext(m, cur, n);
        [cur] + Chain(m, next, n - 1)
  }

  /** Each id of the chain after the first is the parent of the one before. */
  lemma {:induction false} ChainLinks(m: map<string, Value>, cur: Value, n: nat)
    requires ChainEnds(m, cur, n)
    ensures var c := Chain(m, cur, n);
            forall i :: 0 <= i < |c| - 1 ==> c[i] != Null && Step(m, c[i]).Success? && Step(m, c[i]).value.1 == c[i + 1]
    decreases n
  {
    if cur != Null && Step(m, cur).Success? {
      var next := Step(m, cur).value.1;
      ChainLinks(m, next, n - 1);
      var c := Chain(m, cur, n);
      assert c == [cur] + Chain(m, next, n - 1);
      if next != Null {
        assert c[1] == next;
      }
    }
  }

  /** The entries of a list of visited nodes, in the same order. */
  function EntriesOf(m: map<string, Value>, ids: seq<Value>): seq<Entry>
  {
    if ids == [] then []
    else
      var rest := EntriesOf(m, ids[1..]);
      match NodeAt(m, ids[0])
      case Some(node) =>
        if ids[0].Str? && EntryOf(ids[0].s, node).Success? && EntryOf(ids[0].s, node).value.Some?
        then [EntryOf(ids[0].s, node).value.value] + rest else rest
      case None => rest
  }

  /** A successful walk keeps exactly the entries of the nodes on the
      chain, nearest first. */
  lemma {:induction false} CollectIsChainEntries(m: map<string, Value>, cur: Value, n: nat)
    requires ChainEnds(m, cur, n) && Collect(m, cur, n).Success?
    ensures Collect(m, cur, n).value == EntriesOf(m, Chain(m, cur, n))
    decreases n
  {
    if cur != Null {
      var next := Step(m, cur).value.1;
      CollectIsChainEntries(m, next, n - 1);
      assert Chain(m, cur, n)[1..] == Chain(m, next, n - 1);
    }
  }

  /** Every entry's id is on the chain. */
  lemma {:induction false} EntriesOnChain(m: map<string, Value>, ids: seq<Value>)
    ensures forall e :: e in EntriesOf(m, ids) ==> Str(e.id) in ids
  {
    if ids != [] {
      EntriesOnChain(m, ids[1..]);
      forall e | e in EntriesOf(m, ids) ensures Str(e.id) in ids {
        if e !in EntriesOf(m, ids[1..]) {
          var node := NodeAt(m, ids[0]).value;
          assert e == EntryOf(ids[0].s, node).value.value;
        }
      }
    }
  }

  /** `get_conversation_messages` as a function of the conversation. */
  function Messages(conv: Conversation, n: nat): Result<seq<Entry>, Fault>
    requires conv.mapping.Some? ==> ChainEnds(conv.mapping.value, conv.currentNode, n)
  {
    match conv.mapping
    case None => Success([])
    case Some(m) =>
      match Collect(m, conv.currentNode, n)
      case Failure(f) => Failure(f)
      case Success(entries) => Success(Reverse(entries))
  }

  /** The transcript is the chain's entries with the root end first; each
      entry's id is on the chain from the current node. */
  lemma MessagesRootFirst(conv: Conversation, n: nat)
    requires conv.mapping.Some? && ChainEnds(conv.mapping.value, conv.currentNode, n)
    requires Messages(conv, n).Success?
    ensures var m := conv.mapping.value;
            var c := Chain(m, conv.currentNode, n);
            && Messages(conv, n).value == Reverse(EntriesOf(m, c))
            && forall e :: e in Messages(conv, n).value ==> Str(e.id) in c
  {
    var m := conv.mapping.value;
    CollectIsChainEntries(m, conv.currentNode, n);
    EntriesOnChain(m, Chain(m, conv.currentNode, n));
    var es := EntriesOf(m, Chain(m, conv.currentNode, n));
    forall e | e in Reverse(es) ensures e in es {
      var k :| 0 <= k < |Reverse(es)| && Reverse(es)[k] == e;
      assert es[|es| - 1 - k] == e;
    }
  }

  /** The loop of `get_conversation_messages`: append while walking up, then
      reverse. The bound `n` is ghost: it only witnesses that the walk ends. */
  method GetConversationMessages(conv: Conversation, ghost n: nat) returns (r: Result<seq<Entry>, Fault>)
    requires conv.mapping.Some? ==> ChainEnds(conv.mapping.value, conv.currentNode, n)
    ensures r == Messages(conv, n)
    ensures conv.mapping.None? ==> r == Success([])
  {
    if conv.mapping.None? {
      return Success([]);
    }
    var m := conv.mapping.value;
    var messages: seq<Entry> := [];
    var cur := conv.currentNode;
    ghost var k := n;
    assert Prefixed([], Collect(m, cur, k)) == Collect(m, cur, k) by {
      if Collect(m, cur, k).Success? {
        assert [] + Collect(m, cur, k).value == Collect(m, cur, k).value;
      }
    }
    while cur != Null
      invariant ChainEnds(m, cur, k)
      invariant Collect(m, conv.currentNode, n) == Prefixed(messages, Collect(m, cur, k))
      decreases k
    {
      var step := Step(m, cur);
      if step.Failure? {
        return Failure(step.error);
      }
      CollectStep(m, cur, k, messages);
      var (e, next) := step.value;
      if e.Some? {
        messages := messages + [e.value];
      } else {
        assert messages + [] == messages;
      }
      cur := next;
      k := k - 1;
    }
    assert messages + [] == messages;
    r := Success(Reverse(messages));
  }

  /** A node that only links to itself: the loop never ends, so no bound
      makes the walk finite. */
  lemma {:induction false} SelfParentNeverEnds(n: nat)
    ensures !ChainEnds(map["a" := Obj([("parent", Str("a"))])], Str("a"), n)
  {
    var m := map["a" := Obj([("parent", Str("a"))])];
    assert Get([("parent", Str("a"))], "parent") == Some(Str("a"));
    assert Step(m, Str("a")) == Success((None, Str("a")));
    if n > 0 {
      SelfParentNeverEnds(n - 1);
    }
  }

  /** A node whose message is the string "hi": `"author" in "hi"` is
      false, so the node is skipped and the transcript is empty. */
  lemma StringMessageSkipped()
    ensures ChainEnds(map["a" := Obj([("message", Str("hi"))])], Str("a"), 1)
    ensures Messages(Conversation(Some(map["a" := Obj([("message", Str("hi"))])]), Str("a")), 1) == Success([])
  {
    var m := map["a" := Obj([("message", Str("hi"))])];
    assert Get([("message", Str("hi"))], "message") == Some(Str("hi"));
    assert Get([("message", Str("hi"))], "parent") == None;
    assert !Occurs("author", "hi") by {
      assert "hi"[1..] == "i" && "i"[1..] == "";
    }
    assert EntryOf("a", Obj([("message", Str("hi"))])) == Success(None);
    assert Step(m, Str("a")) == Success((None, Null));
    assert Collect(m, Null, 0) == Success([]);
    assert Kept(None) + [] == [];
  }

  /** A text message whose parent is missing from the mapping. */
  function OrphanMapping(): map<string, Value>
  {
    map["a" := Obj([("message", Obj([("author", Obj([("role", Str("user"))])),
                                      ("content", Obj([("content_type", Str("text")), ("parts", Arr([Str("hi")]))]))])),
                    ("parent", Str("b"))])]
  }

  /** As written: the walk from "a" keeps its message, then `node.get` on
      the missing "b" raises, and the whole transcript is lost. */
  lemma DanglingParentRaises()
    ensures ChainEnds(OrphanMapping(), Str("a"), 2)
    ensures Collect(OrphanMapping(), Str("a"), 2) == Failure(Dangling(Str("b")))
  {
    var m := OrphanMapping();
    OrphanEntry();
    assert Step(m, Str("b")) == Failure(Dangling(Str("b")));
  }

  /** The node "a" of the orphan mapping: a text message from the user. */
  lemma OrphanEntry()
    ensures Step(OrphanMapping(), Str("a")) == Success((Some(Entry("a", Str("user"), Int(0), Str("hi"))), Str("b")))
  {
    var node := OrphanMapping()["a"];
    var msg := Obj([("author", Obj([("role", Str("user"))])),
                    ("content", Obj([("content_type", Str("text")), ("parts", Arr([Str("hi")]))]))]);
    var content := Obj([("content_type", Str("text")), ("parts", Arr([Str("hi")]))]);
    assert Get(node.fields, "message") == Some(msg);
    assert Get(node.fields, "parent") == Some(Str("b"));
    assert Get(msg.fields, "author") == Some(Obj([("role", Str("user"))]));
    assert Get(msg.fields, "content") == Some(content);
    assert Get(msg.fields, "create_time") == None;
    assert Get([("role", Str("user"))], "role") == Some(Str("user"));
    assert Get(content.fields, "content_type") == Some(Str("text"));
    assert Get(content.fields, "parts") == Some(Arr([Str("hi")]));
    TextMessageIsEntry("a", node, Entry("a", Str("user"), Int(0), Str("hi")));
  }

  /** The walk as evidently intended: a parent missing from the mapping
      ends the chain, like a root, instead of raising. */
  function CollectTolerant(m: map<string, Value>, cur: Value, n: nat): Result<seq<Entry>, Fault>
    requires ChainEnds(m, cur, n)
    decreases n
  {
    if cur == Null then Success([])
    else match Step(m, cur)
      case Failure(Dangling(_)) => Success([])
      case Failure(f) => Failure(f)
      case Success((e, next)) =>
        ChainEndsNext(m, cur, n);
        match CollectTolerant(m, next, n - 1)
        case Failure(f) => Failure(f)
        case Success(rest) => Success(Kept(e) + rest)
  }

  /** The tolerant walk never raises for a missing node, and agrees with
      the walk as written whenever that one does not raise. */
  lemma {:induction false} CollectTolerantSound(m: map<string, Value>, cur: Value, n: nat)
    requires ChainEnds(m, cur, n)
    ensures !(CollectTolerant(m, cur, n).Failure? && CollectTolerant(m, cur, n).error.Dangling?)
    ensures Collect(m, cur, n).Success? ==> CollectTolerant(m, cur, n) == Collect(m, cur, n)
    decreases n
  {
    if cur != Null && Step(m, cur).Success? {
      CollectTolerantSound(m, Step(m, cur).value.1, n - 1);
    }
  }

  /** On the orphan mapping the tolerant walk keeps the message. */
  lemma DanglingParentTolerated()
    ensures ChainEnds(OrphanMapping(), Str("a"), 2)
    ensures CollectTolerant(OrphanMapping(), Str("a"), 2) == Success([Entry("a", Str("user"), Int(0), Str("hi"))])
  {
    var m := OrphanMapping();
    OrphanEntry();
    assert Step(m, Str("b")) == Failure(Dangling(Str("b")));
    assert CollectTolerant(m, Str("b"), 1) == Success([]);
    assert [Entry("a", Str("user"), Int(0), Str("hi"))] + [] == [Entry("a", Str("user"), Int(0), Str("hi"))];
  }
}
