/** POST /chat: the upstream completion call is an input; when it fails, the
    reply comes from a first-match keyword table over the lowercased message. */
module Chat {
  import opened Records

  /** Python's `key in text` on strings: key occurs at some position of text. */
  ghost predicate Occurs(key: string, text: string)
  {
    exists i :: 0 <= i <= |text| && key <= text[i..]
  }

  /** A left-to-right scan for key, the executable form of `key in text`. */
  function Contains(text: string, key: string): (b: bool)
    ensures b <==> Occurs(key, text)
  {
    if key <= text then
      assert text[0..] == text;
      true
    else if text == [] then
      false
    else
      var b := Contains(text[1..], key);
      ShiftOccurs(key, text);
      b
  }

  /** Occurring in text, when not at position 0, is occurring in text[1..]. */
  lemma ShiftOccurs(key: string, text: string)
    requires text != [] && !(key <= text)
    ensures Occurs(key, text) <==> Occurs(key, text[1..])
  {
    if Occurs(key, text) {
      var i :| 0 <= i <= |text| && key <= text[i..];
      assert i != 0;
      assert text[1..][i - 1..] == text[i..];
    }
    if Occurs(key, text[1..]) {
      var i :| 0 <= i <= |text[1..]| && key <= text[1..][i..];
      assert text[1..][i..] == text[i + 1..];
    }
  }

  /** No key of table[..i] occurs in text. */
  ghost predicate NoneOccursBefore(table: seq<(string, string)>, text: string, i: int)
  {
    forall j :: 0 <= j < i && j < |table| ==> !Occurs(table[j].0, text)
  }

  /** reply is what the first key of table that occurs in text maps to, or
      default when no key occurs. */
  ghost predicate FirstMatchIs(table: seq<(string, string)>, text: string, default: string, reply: string)
  {
    && (forall i :: 0 <= i < |table| && Occurs(table[i].0, text) && NoneOccursBefore(table, text, i) ==>
                      reply == table[i].1)
    && ((forall i :: 0 <= i < |table| ==> !Occurs(table[i].0, text)) ==> reply == default)
  }

  /** The `for key, value in fallback_responses.items()` loop with its `break`. */
  method FirstMatch(table: seq<(string, string)>, text: string, default: string) returns (reply: string)
    ensures FirstMatchIs(table, text, default, reply)
  {
    reply := default;
    var i := 0;
    while i < |table|
      invariant 0 <= i <= |table|
      invariant NoneOccursBefore(table, text, i)
      invariant reply == default
    {
      if Contains(text, table[i].0) {
        reply := table[i].1;
        break;
      }
      i := i + 1;
    }
  }

  /** The same table lookup written as recursion over the table. */
  ghost function Scan(table: seq<(string, string)>, text: string, default: string): string
  {
    if table == [] then default
    else if Occurs(table[0].0, text) then table[0].1
    else Scan(table[1..], text, default)
  }

  /** The declarative first-match reply is exactly the recursive scan's, so
      the table determines the reply. */
  lemma {:induction false} FirstMatchIsScan(table: seq<(string, string)>, text: string, default: string, reply: string)
    ensures FirstMatchIs(table, text, default, reply) <==> reply == Scan(table, text, default)
  {
    if table == [] {
    } else if Occurs(table[0].0, text) {
      assert NoneOccursBefore(table, text, 0);
      if FirstMatchIs(table, text, default, reply) {
        assert reply == table[0].1;
      }
    } else {
      var rest := table[1..];
      FirstMatchIsScan(rest, text, default, reply);
      forall i | 0 <= i < |rest| ensures NoneOccursBefore(table, text, i + 1) <==> NoneOccursBefore(rest, text, i) {
        if NoneOccursBefore(rest, text, i) {
          forall j | 0 <= j < i + 1 && j < |table| ensures !Occurs(table[j].0, text) {
            if j > 0 { assert table[j] == rest[j - 1]; }
          }
        }
        if NoneOccursBefore(table, text, i + 1) {
          forall j | 0 <= j < i && j < |rest| ensures !Occurs(rest[j].0, text) {
            assert rest[j] == table[j + 1];
          }
        }
      }
      if FirstMatchIs(table, text, default, reply) {
        forall i | 0 <= i < |rest| && Occurs(rest[i].0, text) && NoneOccursBefore(rest, text, i)
          ensures reply == rest[i].1
        {
          assert table[i + 1] == rest[i];
        }
        if forall i :: 0 <= i < |rest| ==> !Occurs(rest[i].0, text) {
          forall i | 0 <= i < |table| ensures !Occurs(table[i].0, text) {
            if i > 0 { assert table[i] == rest[i - 1]; }
          }
        }
        assert FirstMatchIs(rest, text, default, reply);
      }
      if FirstMatchIs(rest, text, default, reply) {
        forall i | 0 <= i < |table| && Occurs(table[i].0, text) && NoneOccursBefore(table, text, i)
          ensures reply == table[i].1
        {
          assert i > 0;
          assert table[i] == rest[i - 1];
        }
        if forall i :: 0 <= i < |table| ==> !Occurs(table[i].0, text) {
          forall i | 0 <= i < |rest| ensures !Occurs(rest[i].0, text) {
            assert rest[i] == table[i + 1];
          }
        }
      }
    }
  }

  const FallbackReplies: seq<(string, string)> := [
    ("xin chào", "Chào bạn! Tôi giúp học Python."),
    ("hello", "Hi! Tôi giúp học Python."),
    ("python", "Python dễ học. Bạn cần gì?")
  ]
  const DefaultReply: string := "Tôi giúp học Python."
  const BusyReply: string := "AI đang bận. Thử lại sau!"

  /** What the completion request came back with: a status code and, when the
      body parses, `choices[0].message.content`; or an exception (timeout,
      connection error). */
  datatype Upstream = Answered(status: int, content: Option<string>) | Unreachable

  /** The reply of POST /chat for a message, given `lower` for `str.lower()`.
      A 200 whose body cannot be read raises inside the `try`, like a network
      error, and falls back to the table. */
  method ChatReply(message: string, lower: string -> string, upstream: Upstream) returns (reply: string)
    ensures upstream.Answered? && upstream.status == 200 && upstream.content.Some? ==>
              reply == upstream.content.value
    ensures upstream.Answered? && upstream.status != 200 ==> reply == BusyReply
    ensures upstream.Unreachable? || (upstream.status == 200 && upstream.content.None?) ==>
              FirstMatchIs(FallbackReplies, lower(message), DefaultReply, reply)
  {
    if upstream.Answered? && upstream.status == 200 && upstream.content.Some? {
      reply := upstream.content.value;
    } else if upstream.Answered? && upstream.status != 200 {
      reply := BusyReply;
    } else {
      reply := FirstMatch(FallbackReplies, lower(message), DefaultReply);
    }
  }

  /** "hello" comes before "python" in the table, so a message holding
      "hello" but not "xin chào" gets the "hello" reply, whether or not it
      also holds "python". */
  lemma HelloBeforePython(text: string)
    requires !Occurs("xin chào", text) && Occurs("hello", text)
    ensures FirstMatchIs(FallbackReplies, text, DefaultReply, "Hi! Tôi giúp học Python.")
  {
    var hello := FallbackReplies[1];
    assert hello == ("hello", "Hi! Tôi giúp học Python.") && Occurs(hello.0, text);
    forall i | 0 <= i < |FallbackReplies| && Occurs(FallbackReplies[i].0, text) && NoneOccursBefore(FallbackReplies, text, i)
      ensures FallbackReplies[i].1 == hello.1
    {
      assert i == 1;
    }
  }

  /** A message holding none of the keys gets the default reply. */
  lemma NoKeyGivesDefault(text: string)
    requires forall i :: 0 <= i < |FallbackReplies| ==> !Occurs(FallbackReplies[i].0, text)
    ensures FirstMatchIs(FallbackReplies, text, DefaultReply, DefaultReply)
  {
  }
}
